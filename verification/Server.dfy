/** The dashboard server: the event channel, the memory it guards with one lock, and its store. Each method here is
    what one goroutine does without interference; the protocol interleaves their steps. */
module Dashboard {
  import opened Domain
  import opened JobTable
  import opened RunBoard
  import opened Executions
  import opened Persistence
  import opened Restart
  import opened Protocol
  import opened Readers

  /** The three steps of handling one event, run to the end without interference. */
  ghost predicate Handled(c: Config, e: Event, recordOk: bool, pruneOk: bool, now: Time,
                          rows: set<Row>, nextId: int, b: Board, rows': set<Row>, nextId': int, b': Board) {
    && b' == Apply(c.cron, b, e, now)
    && if !e.Finished() then rows' == rows && nextId' == nextId
       else
         var written := if recordOk then rows + {RowOf(c, nextId, e)} else rows;
         && nextId' == (if recordOk then nextId + 1 else nextId)
         && if c.retention > 0 && pruneOk then Pruned(written, HashCommand(e.command), c.retention, rows')
            else rows' == written
  }

  lemma FinishIsSteps(c: Config, s: World, recordOk: bool, pruneOk: bool, rows': set<Row>, nextId': int)
    returns (tr: seq<World>, acts: seq<Action>)
    requires s.consumer.Recording?
    requires s.consumer.e.Finished()
    requires var written := if recordOk then s.rows + {RowOf(c, s.nextId, s.consumer.e)} else s.rows;
             if c.retention > 0 && pruneOk
             then Pruned(written, HashCommand(s.consumer.e.command), c.retention, rows') else rows' == written
    requires nextId' == if recordOk then s.nextId + 1 else s.nextId
    ensures Steps(c, tr, acts) && tr[0] == s
    ensures var last := tr[|tr| - 1];
            last.consumer == Updating(s.consumer.e) && last.rows == rows' && last.nextId == nextId'
            && last.board == s.board && last.queue == s.queue && last.handled == s.handled
  {
    var e := s.consumer.e;
    var next := s.(recorded := s.recorded + [e], consumer := if c.retention > 0 then Pruning(e) else Updating(e));
    var row := RowOf(c, s.nextId, e);
    var written := if recordOk then next.(rows := s.rows + {row}, nextId := s.nextId + 1, ever := s.ever + {row})
                   else next.(lost := s.lost + {e.Key()});
    assert RecordStep(c, s, recordOk, written);
    if c.retention > 0 {
      var pruned := written.(rows := rows', consumer := Updating(e));
      assert PruneStep(c, written, pruneOk, pruned);
      tr, acts := [s, written, pruned], [Record(recordOk), Prune(pruneOk)];
    } else {
      tr, acts := [s, written], [Record(recordOk)];
    }
  }

  lemma StepsThen(c: Config, tr: seq<World>, acts: seq<Action>, a: Action, s': World)
    requires Steps(c, tr, acts) && Next(c, tr[|tr| - 1], a, s')
    ensures Steps(c, tr + [s'], acts + [a])
  {
  }

  lemma StepsAfter(c: Config, s: World, a: Action, tr: seq<World>, acts: seq<Action>)
    requires Steps(c, tr, acts) && Next(c, s, a, tr[0])
    ensures Steps(c, [s] + tr, [a] + acts)
  {
  }

  /** Handling an event is a fragment of the protocol: the consumer takes it off the queue and walks through its
      steps, and ends waiting with the memory and the rows the method left. */
  lemma HandlingIsSteps(c: Config, s: World, recordOk: bool, pruneOk: bool, now: Time,
                        rows': set<Row>, nextId': int, b': Board)
    returns (tr: seq<World>, acts: seq<Action>)
    requires s.consumer.Waiting? && s.queue != []
    requires Handled(c, s.queue[0], recordOk, pruneOk, now, s.rows, s.nextId, s.board, rows', nextId', b')
    ensures Steps(c, tr, acts) && tr[0] == s
    ensures var last := tr[|tr| - 1];
            last.consumer.Waiting? && last.board == b' && last.rows == rows' && last.nextId == nextId'
            && last.queue == s.queue[1..] && last.handled == s.handled + [s.queue[0]]
  {
    var e := s.queue[0];
    var taken := s.(queue := s.queue[1..], consumer := if e.Finished() then Recording(e) else Updating(e));
    assert ReceiveStep(s, taken);
    if e.Finished() {
      tr, acts := FinishIsSteps(c, taken, recordOk, pruneOk, rows', nextId');
    } else {
      tr, acts := [taken], [];
    }
    StepsAfter(c, s, Receive, tr, acts);
    tr, acts := [s] + tr, [Receive] + acts;
    var ready := tr[|tr| - 1];
    var last := ready.(board := b', handled := s.handled + [e], consumer := Waiting);
    assert UpdateStep(c, ready, now, last);
    StepsThen(c, tr, acts, Update(now), last);
    tr, acts := tr + [last], acts + [Update(now)];
  }

  /** What the inspector shows of a job's runs. */
  datatype Page = NoSuchJob | NoHistory | Runs(active: seq<ActiveRun>, history: seq<Row>)

  class Server {
    var jobs: Jobs
    var active: map<JobId, map<int, ActiveRun>>
    var eventChan: seq<Event>
    const store: Store
    const cron: Cron
    const logExecMaxLines: int
    const logExecMaxHist: int

    /** Every entry, stored or not, is filed under the id of its own command, the memory is consistent, and the channel
        is no longer than it may be. */
    ghost predicate Valid()
      reads this, store
    {
      && store.Valid() && Identified(store.jobs)
      && Keyed(jobs) && Identified(jobs) && Consistent(Memory()) && |eventChan| <= EVENT_CAPACITY
    }

    constructor (store: Store, cron: Cron, logExecMaxLines: int, logExecMaxHist: int)
      requires store.Valid() && Identified(store.jobs)
      ensures Valid()
      ensures this.store == store && this.cron == cron
      ensures this.logExecMaxLines == logExecMaxLines && this.logExecMaxHist == logExecMaxHist
      ensures jobs == map[] && active == map[] && eventChan == []
    {
      this.store, this.cron := store, cron;
      this.logExecMaxLines, this.logExecMaxHist := logExecMaxLines, logExecMaxHist;
      jobs, active, eventChan := map[], map[], [];
    }

    ghost function Memory(): Board
      reads this`jobs, this`active
    {
      Board(jobs, active)
    }

    function Settings(): Config {
      Config(cron, logExecMaxLines != 0, logExecMaxHist)
    }

    /** The scheduler's side: never blocks, and drops the event when the channel is full. */
    method Send(e: Event) returns (accepted: bool)
      requires Valid()
      modifies this`eventChan
      ensures Valid()
      ensures accepted <==> |old(eventChan)| < 1000
      ensures eventChan == if accepted then old(eventChan) + [e] else old(eventChan)
    {
      accepted := |eventChan| < EVENT_CAPACITY;
      if accepted { eventChan := eventChan + [e]; }
    }

    /** The run's row, without its output when storing is off, and then the prune when there is a limit. */
    method RecordExecutionAndCleanup(id: JobId, e: Event, status: Status, recordIo: bool, pruneIo: bool)
      requires store.Valid()
      modifies store`executions, store`nextId
      ensures store.Valid()
      ensures var output := if logExecMaxLines == 0 then "" else e.output;
              var row := Row(old(store.nextId), id, e.startedAt, e.finishedAt, status, e.exitCode, e.executed, output);
              var written := if recordIo then old(store.executions) + {row} else old(store.executions);
              if logExecMaxHist > 0 && pruneIo then Pruned(written, id, logExecMaxHist, store.executions)
              else store.executions == written
      ensures store.nextId == if recordIo then old(store.nextId) + 1 else old(store.nextId)
    {
      var output := e.output;
      if logExecMaxLines == 0 { output := ""; }
      var _ := store.RecordExecution(id, e.startedAt, e.finishedAt, status, e.exitCode, e.executed, output, recordIo);
      if logExecMaxHist > 0 {
        var _ := store.CleanupOldExecutions(id, logExecMaxHist, pruneIo);
      }
    }

    method UpdateNextRun(job: JobInfo, now: Time) returns (job': JobInfo)
      ensures job' == WithNextRun(cron, job, now)
    {
      if job.schedule == "" { return job; }
      if cron.parses(job.schedule) { return job.(nextRun := cron.next(job.schedule, now)); }
      return job;
    }

    /** The run enters or leaves the runs in progress. */
    method TrackRun(e: Event)
      modifies this`active
      ensures active == ActiveAfter(old(active), e)
    {
      var id, start := HashCommand(e.command), Micro(e.startedAt);
      if e.kind == StartEvent {
        if id !in active { active := active[id := map[]]; }
        active := active[id := active[id][start := ActiveRun(e.startedAt, e.executed)]];
      } else {
        if id in active { active := active[id := active[id] - {start}]; }
        if id !in active || active[id] == map[] { active := active - {id}; }
      }
    }

    method JobAfter(e: Event, runStatus: Status, now: Time) returns (job: JobInfo)
      requires runStatus == if e.kind == FailedEvent then Failed else Success
      ensures job == EntryAfter(cron, EntryFor(cron, jobs, e, now), e, HashCommand(e.command) in active, now)
    {
      var id := HashCommand(e.command);
      if id in jobs {
        job := jobs[id];
      } else {
        job := JobInfo(id, "", e.command, e.schedule, ZERO_TIME, ZERO_TIME, Idle, None, 0, false, true, now, now, 0);
        job := UpdateNextRun(job, now);
      }
      if e.kind == StartEvent {
        job := job.(isRunning := true);
        if e.startedAt > job.lastRun { job := job.(lastRun := e.startedAt); }
        job := job.(lastStatus := Running);
      } else {
        job := job.(isRunning := id in active, lastStatus := runStatus);
        if job.isRunning { job := job.(lastStatus := Running); }
        job := job.(lastExitCode := Some(e.exitCode), lastDuration := e.finishedAt - e.startedAt);
        if job.enabled { job := UpdateNextRun(job, now); }
      }
      job := job.(updatedAt := now);
    }

    /** What happens under the lock: the run enters or leaves the runs in progress, and its job's entry follows. */
    method UpdateMemory(e: Event, runStatus: Status, now: Time)
      requires runStatus == if e.kind == FailedEvent then Failed else Success
      modifies this`jobs, this`active
      ensures Memory() == Apply(cron, old(Memory()), e, now)
    {
      TrackRun(e);
      var job := JobAfter(e, runStatus, now);
      jobs := jobs[HashCommand(e.command) := job];
    }

    method HandleJobEvent(e: Event, now: Time, recordIo: bool, pruneIo: bool)
      requires Valid()
      modifies this`jobs, this`active, store`executions, store`nextId
      ensures Valid()
      ensures Handled(Settings(), e, recordIo, pruneIo, now, old(store.executions), old(store.nextId), old(Memory()),
                      store.executions, store.nextId, Memory())
    {
      var id := HashCommand(e.command);
      var runStatus := Success;
      if e.kind == FailedEvent { runStatus := Failed; }
      // recorded before the run leaves the active set
      if e.Finished() {
        RecordExecutionAndCleanup(id, e, runStatus, recordIo, pruneIo);
      }
      UpdateMemory(e, runStatus, now);
      ApplyKeepsKeyed(cron, old(Memory()), e, now);
      ApplyKeepsIdentified(cron, old(Memory()), e, now);
      ApplyKeepsConsistent(cron, old(Memory()), e, now);
    }

    /** One round of the consumer: an event off the channel is handled, and after a finish all jobs are saved. */
    method ProcessEvent(now: Time, recordIo: bool, pruneIo: bool, saveIo: bool)
      requires Valid() && eventChan != []
      modifies this`jobs, this`active, this`eventChan, store`executions, store`nextId, store`jobs
      ensures Valid() && eventChan == old(eventChan)[1..]
      ensures Handled(Settings(), old(eventChan)[0], recordIo, pruneIo, now, old(store.executions), old(store.nextId),
                      old(Memory()), store.executions, store.nextId, Memory())
      ensures if old(eventChan)[0].Finished() && saveIo then Persisted(jobs, old(store.jobs), store.jobs)
              else store.jobs == old(store.jobs)
    {
      var e := eventChan[0];
      eventChan := eventChan[1..];
      HandleJobEvent(e, now, recordIo, pruneIo);
      if e.Finished() {
        var _ := PersistJobs(saveIo);
      }
    }

    /** The job's runs in progress, newest first. */
    method ActiveRuns(id: JobId) returns (res: seq<ActiveRun>)
      requires Valid()
      ensures Listing(Memory(), id, res)
      ensures forall i, j :: 0 <= i < j < |res| ==> res[i].startedAt > res[j].startedAt
    {
      if id !in active { return []; }
      res := NewestFirst(RunsIn(active[id]));
      ListingOf(Memory(), id, res);
    }

    static method NewestFirst(runs: set<ActiveRun>) returns (res: seq<ActiveRun>)
      requires forall x, y :: x in runs && y in runs && x.startedAt == y.startedAt ==> x == y
      ensures forall r :: r in res <==> r in runs
      ensures forall i, j :: 0 <= i < j < |res| ==> res[i].startedAt > res[j].startedAt
    {
      res := [];
      var rest := runs;
      while rest != {}
        invariant rest <= runs
        invariant forall r :: r in runs <==> r in rest || r in res
        invariant forall i, j :: 0 <= i < j < |res| ==> res[i].startedAt > res[j].startedAt
        invariant forall r, i :: r in rest && 0 <= i < |res| ==> r.startedAt < res[i].startedAt
        decreases rest
      {
        var r := LatestOf(rest);
        res := res + [r];
        rest := rest - {r};
      }
    }

    static method LatestOf(runs: set<ActiveRun>) returns (m: ActiveRun)
      requires runs != {}
      requires forall x, y :: x in runs && y in runs && x.startedAt == y.startedAt ==> x == y
      ensures m in runs && forall x :: x in runs && x != m ==> x.startedAt < m.startedAt
    {
      m :| m in runs;
      var rest := runs - {m};
      while rest != {}
        invariant m in runs && m !in rest && rest <= runs
        invariant forall x :: x in runs - rest && x != m ==> x.startedAt < m.startedAt
        decreases rest
      {
        var x :| x in rest;
        rest := rest - {x};
        if x.startedAt > m.startedAt { m := x; }
      }
    }

    /** The inspector's merge: of a run found in both reads, the recorded row stays. */
    static method DropRecorded(act: seq<ActiveRun>, history: seq<Row>) returns (res: seq<ActiveRun>)
      ensures res == Unrecorded(act, history)
    {
      res := [];
      for i := 0 to |act|
        invariant res == Unrecorded(act[..i], history)
      {
        assert act[..i + 1][..i] == act[..i];
        if !RowAt(history, Micro(act[i].startedAt)) { res := res + [act[i]]; }
      }
      assert act[..|act|] == act;
    }

    /** The inspector's two reads and their merge, for a known job. */
    method Inspect(id: JobId, io: bool) returns (page: Page)
      requires Valid()
      ensures page.NoSuchJob? <==> id !in jobs
      ensures page.NoHistory? <==> id in jobs && !io
      ensures page.Runs? ==> exists act :: Listing(Memory(), id, act) && page.active == Unrecorded(act, page.history)
      ensures page.Runs? ==> Selection(store.executions, id, 50, page.history)
    {
      if id !in jobs { return NoSuchJob; }
      var act := ActiveRuns(id);
      var history := store.GetExecutions(id, INSPECTOR_RUNS, io);
      if history.None? { return NoHistory; }
      var live := DropRecorded(act, history.value);
      return Runs(live, history.value);
    }

    /** The live output of one run: looked for among the runs in progress, then among the recorded ones. */
    method LiveOutput(id: JobId, start: int, io: bool) returns (ans: Answer)
      requires Valid()
      ensures Answers(id in jobs, Memory(), store.executions, io, RunKey(id, start), ans)
    {
      if id !in jobs { return Missing; }
      if id in active && start in active[id] { return Live(active[id][start]); }
      var run := store.GetExecutionByStart(id, start, io);
      return match run case Found(r) => Recorded(r) case NotFound => Gone case Unreadable => Unavailable;
    }

    /** One crontab entry: refreshes its job and takes it off the jobs to remove, or makes it. */
    method ApplySpec(spec: Spec, now: Time, idx: nat, oldJobs: set<JobId>) returns (left: set<JobId>)
      modifies this`jobs
      ensures SpecApplied(cron, old(jobs), oldJobs, spec, now, idx, jobs, left)
      ensures Keyed(old(jobs)) ==> Keyed(jobs)
      ensures Identified(old(jobs)) ==> Identified(jobs)
    {
      left := oldJobs;
      var id := HashCommand(spec.command);
      if !cron.parses(spec.spec) { return; }
      if id in jobs {
        var job := jobs[id];
        job := job.(name := spec.name, schedule := spec.spec, nextRun := cron.next(spec.spec, now),
                    updatedAt := now, sortIndex := idx);
        left := left - {id};
        jobs := jobs[id := job];
      } else {
        jobs := jobs[id := JobInfo(id, spec.name, spec.command, spec.spec, cron.next(spec.spec, now),
                                   ZERO_TIME, Idle, None, 0, false, true, now, now, idx)];
      }
    }

    /** The sync's loop over the crontab: returns the jobs it did not see. */
    method ApplySpecs(specs: seq<Spec>, clock: Clock) returns (oldJobs: set<JobId>)
      requires Keyed(jobs)
      modifies this`jobs
      ensures Keyed(jobs) && SyncedUpTo(cron, old(jobs), specs, clock, |specs|, jobs, oldJobs)
    {
      oldJobs := jobs.Keys;
      SyncStarts(cron, jobs, specs, clock);
      for idx := 0 to |specs|
        invariant Keyed(jobs) && SyncedUpTo(cron, old(jobs), specs, clock, idx, jobs, oldJobs)
      {
        ghost var before, left := jobs, oldJobs;
        oldJobs := ApplySpec(specs[idx], clock(idx), idx, oldJobs);
        SyncLoopStep(cron, old(jobs), specs, clock, idx, before, left, jobs, oldJobs);
      }
    }

    /** Brings the job table in line with the crontab. None stands for a job provider that failed. */
    method LoadJobsFromCrontab(list: Option<seq<Spec>>, clock: Clock, saveIo: bool) returns (ok: bool)
      requires Valid()
      modifies this`jobs, store`jobs
      ensures Valid() && ok == list.Some?
      ensures list.None? ==> jobs == old(jobs) && store.jobs == old(store.jobs)
      ensures ok ==> Synced(cron, old(jobs), list.value, clock, jobs)
      ensures ok && saveIo ==> Persisted(jobs, old(store.jobs), store.jobs)
      ensures ok && !saveIo ==> store.jobs == old(store.jobs)
    {
      if list.None? { return false; }
      var oldJobs := ApplySpecs(list.value, clock);
      ghost var seen := jobs;
      jobs := jobs - oldJobs;
      SyncEnds(cron, old(jobs), list.value, clock, seen, oldJobs);
      SyncKeepsConsistent(cron, old(Memory()), list.value, clock, jobs);
      SyncKeepsIdentified(cron, old(jobs), list.value, clock, jobs);
      var _ := PersistJobs(saveIo);
      return true;
    }

    /** Saves every job, walking the map in an arbitrary order. */
    method PersistJobs(io: bool) returns (ok: bool)
      requires Valid()
      modifies store`jobs
      ensures Valid() && ok == io
      ensures if ok then Persisted(jobs, old(store.jobs), store.jobs) else store.jobs == old(store.jobs)
    {
      var js: seq<JobInfo> := [];
      var rest := jobs.Keys;
      while rest != {}
        invariant rest <= jobs.Keys
        invariant forall i :: 0 <= i < |js| ==>
                    js[i].id in jobs && js[i].id !in rest && js[i] == Snapshot(jobs[js[i].id])
        invariant forall id :: id in jobs ==> id in rest || Snapshot(jobs[id]) in js
        invariant forall i, j :: 0 <= i < j < |js| ==> js[i].id != js[j].id
        decreases rest
      {
        var id :| id in rest;
        var job := jobs[id];
        var status := job.lastStatus;
        if job.isRunning { status := Running; }
        js := js + [job.(lastStatus := status)];
        rest := rest - {id};
      }
      ghost var table := store.jobs;
      ok := store.SaveJobs(js, io);
      if ok {
        SavedSnapshots(jobs, table, js);
        SaveKeepsIdentified(jobs, table, store.jobs);
      }
    }

    method LoadJobsFromDB(now: Time, io: bool)
      requires Valid()
      modifies this`jobs
      ensures Valid()
      ensures if io then Loaded(cron, old(jobs), store.jobs, now, jobs) else jobs == old(jobs)
    {
      var list := store.LoadJobs(io);
      if list.None? { return; }
      var js := list.value;
      for i := 0 to |js|
        invariant jobs == LoadedUpTo(cron, old(jobs), js, i, now)
      {
        var job := js[i];
        if job.nextRun == ZERO_TIME { job := UpdateNextRun(job, now); }
        jobs := jobs[js[i].id := job];
      }
      LoadedRows(cron, old(jobs), store.jobs, js, now);
      LoadKeepsConsistent(cron, old(Memory()), store.jobs, now, jobs);
      LoadKeepsIdentified(cron, old(jobs), store.jobs, now, jobs);
    }

    /** Flips the job's switch; false for a job that is not there. */
    method ToggleJob(id: JobId, now: Time, saveIo: bool) returns (found: bool)
      requires Valid()
      modifies this`jobs, store`jobs
      ensures Valid() && found == (id in old(jobs))
      ensures jobs == if found then old(jobs)[id := Toggled(old(jobs)[id], now)] else old(jobs)
      ensures found ==> jobs[id].enabled != old(jobs)[id].enabled
      ensures !found ==> store.jobs == old(store.jobs)
      ensures found && saveIo ==> Persisted(jobs, old(store.jobs), store.jobs)
    {
      if id !in jobs { return false; }
      var job := jobs[id];
      job := job.(enabled := !job.enabled, updatedAt := now);
      jobs := jobs[id := job];
      var _ := PersistJobs(saveIo);
      return true;
    }
  }

  function Get(jobs: Jobs, id: JobId): Option<JobInfo> {
    if id in jobs then Some(jobs[id]) else None
  }

  /** One job after n crontab entries: synced if one of them defines it, else as it was and, if it was there, left
      to be removed. */
  ghost predicate JobSynced(cron: Cron, was: Jobs, specs: seq<Spec>, clock: Clock, n: nat, id: JobId,
                            job: Option<JobInfo>, left: bool)
    requires n <= |specs|
  {
    if Listed(cron, specs, n, id) then job.Some? && EntrySynced(cron, was, specs, clock, n, id, job.value) && !left
    else job == Get(was, id) && left == (id in was)
  }

  ghost predicate SyncedUpTo(cron: Cron, was: Jobs, specs: seq<Spec>, clock: Clock, n: nat, jobs: Jobs,
                             left: set<JobId>)
    requires n <= |specs|
  {
    forall id :: SyncedIn(cron, was, specs, clock, n, jobs, left, id)
  }

  ghost predicate SyncedIn(cron: Cron, was: Jobs, specs: seq<Spec>, clock: Clock, n: nat, jobs: Jobs, left: set<JobId>,
                           id: JobId)
    requires n <= |specs|
  {
    JobSynced(cron, was, specs, clock, n, id, Get(jobs, id), id in left)
  }

  /** What one crontab entry does to the table and to the jobs left to remove. */
  ghost predicate SpecApplied(cron: Cron, jobs: Jobs, left: set<JobId>, spec: Spec, now: Time, idx: nat,
                              jobs': Jobs, left': set<JobId>)
  {
    var id := HashCommand(spec.command);
    if !cron.parses(spec.spec) then jobs' == jobs && left' == left
    else if id in jobs then jobs' == jobs[id := Refreshed(cron, jobs[id], spec, now, idx)] && left' == left - {id}
    else jobs' == jobs[id := Fresh(cron, spec, now, idx)] && left' == left
  }

  lemma SyncStarts(cron: Cron, was: Jobs, specs: seq<Spec>, clock: Clock)
    ensures SyncedUpTo(cron, was, specs, clock, 0, was, was.Keys)
  {
  }

  lemma SyncEnds(cron: Cron, was: Jobs, specs: seq<Spec>, clock: Clock, jobs: Jobs, left: set<JobId>)
    requires SyncedUpTo(cron, was, specs, clock, |specs|, jobs, left)
    ensures Synced(cron, was, specs, clock, jobs - left)
  {
    var jobs' := jobs - left;
    forall id
      ensures id in jobs' <==> Listed(cron, specs, |specs|, id)
      ensures id in jobs' ==> EntrySynced(cron, was, specs, clock, |specs|, id, jobs'[id])
    {
      assert SyncedIn(cron, was, specs, clock, |specs|, jobs, left, id);
    }
  }

  lemma ListedGrows(cron: Cron, specs: seq<Spec>, n: nat, id: JobId)
    requires n < |specs|
    ensures Listed(cron, specs, n + 1, id) <==> Listed(cron, specs, n, id) || Defines(cron, specs, n, id)
  {
    if i: nat :| i < n + 1 && Defines(cron, specs, i, id) {
      assert i == n || Listed(cron, specs, n, id);
    }
  }

  /** Entry n, if it defines the job, refreshes it or makes it; otherwise it leaves it alone. */
  lemma JobStep(cron: Cron, was: Jobs, specs: seq<Spec>, clock: Clock, n: nat, id: JobId,
                before: Option<JobInfo>, left: bool)
    requires n < |specs| && JobSynced(cron, was, specs, clock, n, id, before, left)
    ensures Defines(cron, specs, n, id) ==>
              JobSynced(cron, was, specs, clock, n + 1, id,
                        Some(if before.Some? then Refreshed(cron, before.value, specs[n], clock(n), n)
                             else Fresh(cron, specs[n], clock(n), n)), false)
    ensures !Defines(cron, specs, n, id) ==> JobSynced(cron, was, specs, clock, n + 1, id, before, left)
  {
    ListedGrows(cron, specs, n, id);
    if Listed(cron, specs, n, id) {
      var first: nat, last: nat :| EntryFrom(cron, was, specs, clock, n, id, before.value, first, last);
      if Defines(cron, specs, n, id) {
        var job := Refreshed(cron, before.value, specs[n], clock(n), n);
        assert EntryFrom(cron, was, specs, clock, n + 1, id, job, first, n);
      } else {
        assert EntryFrom(cron, was, specs, clock, n + 1, id, before.value, first, last);
      }
    } else if Defines(cron, specs, n, id) {
      var job := if before.Some? then Refreshed(cron, before.value, specs[n], clock(n), n)
                 else Fresh(cron, specs[n], clock(n), n);
      assert EntryFrom(cron, was, specs, clock, n + 1, id, job, n, n);
    }
  }

  /** One round of the sync loop. A job still to be removed is in the table, so what a new job gets is not. */
  lemma SyncLoopStep(cron: Cron, was: Jobs, specs: seq<Spec>, clock: Clock, n: nat,
                     before: Jobs, left: set<JobId>, after: Jobs, left': set<JobId>)
    requires n < |specs| && SyncedUpTo(cron, was, specs, clock, n, before, left)
    requires SpecApplied(cron, before, left, specs[n], clock(n), n, after, left')
    ensures SyncedUpTo(cron, was, specs, clock, n + 1, after, left')
  {
    var next := n + 1;
    forall id
      ensures SyncedIn(cron, was, specs, clock, next, after, left', id)
    {
      assert SyncedIn(cron, was, specs, clock, n, before, left, id);
      JobStep(cron, was, specs, clock, n, id, Get(before, id), id in left);
    }
  }

  function LoadedUpTo(cron: Cron, jobs: Jobs, js: seq<JobInfo>, n: nat, now: Time): Jobs
    requires n <= |js|
  {
    if n == 0 then jobs else LoadedUpTo(cron, jobs, js, n - 1, now)[js[n - 1].id := Reloaded(cron, js[n - 1], now)]
  }

  lemma {:induction false} LoadedRow(cron: Cron, jobs: Jobs, js: seq<JobInfo>, n: nat, now: Time, id: JobId)
    requires n <= |js|
    requires forall i, j :: 0 <= i < j < n ==> js[i].id != js[j].id
    ensures id in LoadedUpTo(cron, jobs, js, n, now) <==> id in jobs || exists i :: 0 <= i < n && js[i].id == id
    ensures forall i :: 0 <= i < n && js[i].id == id ==>
              LoadedUpTo(cron, jobs, js, n, now)[id] == Reloaded(cron, js[i], now)
    ensures (forall i :: 0 <= i < n ==> js[i].id != id) && id in jobs ==>
              LoadedUpTo(cron, jobs, js, n, now)[id] == jobs[id]
  {
    if n > 0 {
      LoadedRow(cron, jobs, js, n - 1, now, id);
    }
  }

  lemma LoadedRows(cron: Cron, jobs: Jobs, table: Table, js: seq<JobInfo>, now: Time)
    requires Keyed(table) && ListsTable(table, js)
    ensures Loaded(cron, jobs, table, now, LoadedUpTo(cron, jobs, js, |js|, now))
  {
    var jobs' := LoadedUpTo(cron, jobs, js, |js|, now);
    forall id
      ensures id in jobs' <==> id in jobs || id in table
      ensures id in table ==> id in jobs' && jobs'[id] == Reloaded(cron, table[id], now)
      ensures id in jobs && id !in table ==> id in jobs' && jobs'[id] == jobs[id]
    {
      LoadedRow(cron, jobs, js, |js|, now, id);
      if id in table {
        var k :| 0 <= k < |js| && js[k] == table[id];
        assert js[k].id == id;
      }
    }
  }

  function RunsIn(runs: map<int, ActiveRun>): set<ActiveRun> {
    set k | k in runs :: runs[k]
  }

  lemma ListingOf(b: Board, id: JobId, res: seq<ActiveRun>)
    requires Consistent(b) && id in b.active
    requires forall r :: r in res <==> r in RunsIn(b.active[id])
    requires forall i, j :: 0 <= i < j < |res| ==> res[i].startedAt > res[j].startedAt
    ensures Listing(b, id, res)
  {
    forall k | k in b.active[id] ensures exists i :: 0 <= i < |res| && Micro(res[i].startedAt) == k {
      assert b.active[id][k] in RunsIn(b.active[id]);
    }
    forall i | 0 <= i < |res|
      ensures b.Tracks(RunKey(id, Micro(res[i].startedAt))) && b.active[id][Micro(res[i].startedAt)] == res[i]
    {
      assert res[i] in RunsIn(b.active[id]);
    }
  }

  /** Saving one snapshot of each job persists the job table. */
  lemma SavedSnapshots(jobs: Jobs, table: Table, js: seq<JobInfo>)
    requires Keyed(jobs)
    requires forall i :: 0 <= i < |js| ==> js[i].id in jobs && js[i] == Snapshot(jobs[js[i].id])
    requires forall id :: id in jobs ==> Snapshot(jobs[id]) in js
    requires forall i, j :: 0 <= i < j < |js| ==> js[i].id != js[j].id
    ensures Persisted(jobs, table, SavedUpTo(table, js, |js|))
  {
    var table' := SavedUpTo(table, js, |js|);
    forall id ensures id in table' <==> id in table || id in jobs {
      SavedRows(table, js, |js|, id);
      if id in jobs {
        var i :| 0 <= i < |js| && js[i] == Snapshot(jobs[id]);
        assert js[i].id == id;
      }
    }
    forall id | id in jobs ensures table'[id].(sortIndex := 0) == StoredAs(Snapshot(jobs[id]), 0) {
      SavedRows(table, js, |js|, id);
      var i :| 0 <= i < |js| && js[i] == Snapshot(jobs[id]);
      assert js[i].id == id;
    }
    forall id | id in table && id !in jobs ensures table'[id] == table[id] {
      SavedRows(table, js, |js|, id);
    }
  }
}
