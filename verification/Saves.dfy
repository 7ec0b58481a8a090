/** Saves that overlap: a save copies the job table under the lock and writes the copy later, so two of them may write
    in the other order. Each is two positions in a run of the protocol. */
module Saves {
  import opened Domain
  import opened JobTable
  import opened RunBoard
  import opened Executions
  import opened Persistence
  import opened Protocol
  import opened Restart

  /** One save that succeeded: where its copy was taken, and where it was written. */
  datatype Save = Save(at: nat, to: nat)

  /** The jobs table before and after each save, in the order they were written. */
  ghost predicate Written(tr: seq<World>, saves: seq<Save>, tables: seq<Table>) {
    && |tables| == |saves| + 1
    && (forall k :: 0 <= k < |saves| ==> saves[k].at <= saves[k].to < |tr|)
    && (forall k, l :: 0 <= k < l < |saves| ==> saves[k].to <= saves[l].to)
    && forall k :: 0 <= k < |saves| ==> WrittenAt(tr, saves, tables, k)
  }

  ghost predicate WrittenAt(tr: seq<World>, saves: seq<Save>, tables: seq<Table>, k: nat)
    requires |tables| == |saves| + 1 && k < |saves| && saves[k].at < |tr|
  {
    Persisted(tr[saves[k].at].board.jobs, tables[k], tables[k + 1])
  }

  ghost predicate Saving(c: Config, tr: seq<World>, acts: seq<Action>, saves: seq<Save>, tables: seq<Table>) {
    Execution(c, tr, acts) && Written(tr, saves, tables)
  }

  ghost predicate Copies(tr: seq<World>, save: Save, id: JobId) {
    save.at < |tr| && id in tr[save.at].board.jobs
  }

  /** None of the saves from the k-th up to the n-th has a copy that holds the job. */
  ghost predicate NoneCopies(tr: seq<World>, saves: seq<Save>, k: nat, n: nat, id: JobId)
    requires n <= |saves|
  {
    forall l: nat :: k <= l < n ==> !Copies(tr, saves[l], id)
  }

  /** Save k is the last of the first n to be written with a copy that holds the job. */
  ghost predicate IsLastOf(tr: seq<World>, saves: seq<Save>, n: nat, k: nat, id: JobId)
    requires n <= |saves|
  {
    k < n && Copies(tr, saves[k], id) && NoneCopies(tr, saves, k + 1, n, id)
  }

  /** Saves without the job leave its row alone. */
  lemma {:induction false} OtherSavesKeepRow(tr: seq<World>, saves: seq<Save>, tables: seq<Table>, k: nat, n: nat,
                                             id: JobId)
    requires Written(tr, saves, tables) && k <= n <= |saves| && NoneCopies(tr, saves, k, n, id)
    ensures id in tables[n] <==> id in tables[k]
    ensures id in tables[k] ==> tables[n][id] == tables[k][id]
    decreases n
  {
    if k < n {
      var last := n - 1;
      OtherSavesKeepRow(tr, saves, tables, k, last, id);
      assert WrittenAt(tr, saves, tables, last) && !Copies(tr, saves[last], id);
    }
  }

  /** What the table holds of a job after n saves: the copy of the save written last, whenever that was taken; or, when
      none holds the job, what was there at first. */
  lemma TableHoldsLastWritten(tr: seq<World>, saves: seq<Save>, tables: seq<Table>, n: nat, k: nat, id: JobId)
    requires Written(tr, saves, tables) && n <= |saves|
    ensures IsLastOf(tr, saves, n, k, id) ==>
              id in tables[n]
              && tables[n][id].(sortIndex := 0) == StoredAs(Snapshot(tr[saves[k].at].board.jobs[id]), 0)
    ensures NoneCopies(tr, saves, 0, n, id) ==>
              (id in tables[n] <==> id in tables[0]) && (id in tables[0] ==> tables[n][id] == tables[0][id])
  {
    if IsLastOf(tr, saves, n, k, id) {
      assert WrittenAt(tr, saves, tables, k);
      OtherSavesKeepRow(tr, saves, tables, k + 1, n, id);
    }
    if NoneCopies(tr, saves, 0, n, id) {
      OtherSavesKeepRow(tr, saves, tables, 0, n, id);
    }
  }

  /** After a restart a job in the crontab has the history it had where the copy written last was taken, and nothing
      is shown running, whatever the dashboard had done before and however the saves overlapped. */
  lemma RestartRestoresLastWritten(c: Config, tr: seq<World>, acts: seq<Action>, saves: seq<Save>, tables: seq<Table>,
                                   k: nat, now: Time, loaded: Jobs, specs: seq<Spec>, clock: Clock, jobs': Jobs,
                                   id: JobId)
    requires Saving(c, tr, acts, saves, tables) && IsLastOf(tr, saves, |saves|, k, id)
    requires Loaded(c.cron, map[], tables[|saves|], now, loaded) && Synced(c.cron, loaded, specs, clock, jobs')
    ensures id in jobs' <==> Listed(c.cron, specs, |specs|, id)
    ensures id in jobs' ==> SameHistory(jobs'[id], tr[saves[k].at].board.jobs[id]) && !jobs'[id].isRunning
  {
    var table, was := tables[|saves|], tr[saves[k].at].board.jobs[id];
    TableHoldsLastWritten(tr, saves, tables, |saves|, k, id);
    ReachableInv(c, tr, acts, saves[k].at);
    SavedHistory(table[id], was);
    if id in jobs' {
      LoadKeepsHistory(c.cron, table[id], now);
      SyncKeepsRunState(c.cron, loaded, specs, clock, jobs', id);
    }
  }

  lemma SavedHistory(row: JobInfo, was: JobInfo)
    requires row.(sortIndex := 0) == StoredAs(Snapshot(was), 0) && (was.isRunning ==> was.lastStatus == Running)
    ensures SameHistory(row, was) && !row.isRunning
  {
    assert row.(sortIndex := 0).enabled == row.enabled && row.(sortIndex := 0).isRunning == row.isRunning;
    assert row.(sortIndex := 0).lastRun == row.lastRun && row.(sortIndex := 0).lastStatus == row.lastStatus;
    assert row.(sortIndex := 0).createdAt == row.createdAt;
    assert row.(sortIndex := 0).lastExitCode == row.lastExitCode;
    assert row.(sortIndex := 0).lastDuration == row.lastDuration;
  }

  /** No save is under way when another begins. */
  ghost predicate Apart(saves: seq<Save>) {
    forall k, l :: 0 <= k < l < |saves| ==> saves[k].to <= saves[l].at
  }

  /** Saves that do not overlap leave nothing older behind: the copy a restart goes by is the latest one of the job. */
  lemma ApartSavesRestoreLatest(c: Config, tr: seq<World>, acts: seq<Action>, saves: seq<Save>, tables: seq<Table>,
                                k: nat, l: nat, id: JobId)
    requires Saving(c, tr, acts, saves, tables) && Apart(saves) && IsLastOf(tr, saves, |saves|, k, id)
    requires l < |saves| && Copies(tr, saves[l], id)
    ensures saves[l].at <= saves[k].at
  {
    if l < k {
      assert saves[l].at <= saves[l].to <= saves[k].at;
    }
  }

  /** No save puts a running flag into the table. */
  lemma {:induction false} NoRowIsRunning(tr: seq<World>, saves: seq<Save>, tables: seq<Table>, n: nat)
    requires Written(tr, saves, tables) && NoneRunning(tables[0]) && n <= |saves|
    ensures NoneRunning(tables[n])
  {
    if n > 0 {
      var last := n - 1;
      NoRowIsRunning(tr, saves, tables, last);
      assert WrittenAt(tr, saves, tables, last);
      var jobs := tr[saves[last].at].board.jobs;
      forall id | id in tables[n] ensures !tables[n][id].isRunning {
        assert id in jobs ==> !tables[n][id].(sortIndex := 0).isRunning;
      }
    }
  }

  /** The next process starts with what this one left: the rows, and the loaded jobs with nothing in progress. */
  lemma RestartIsInit(c: Config, tr: seq<World>, acts: seq<Action>, saves: seq<Save>, tables: seq<Table>, i: nat,
                      now: Time, loaded: Jobs) returns (s: World)
    requires Saving(c, tr, acts, saves, tables) && i < |tr| && NoneRunning(tables[0])
    requires Loaded(c.cron, map[], tables[|saves|], now, loaded)
    ensures Init(s) && s.rows == tr[i].rows && s.board == Board(loaded, map[])
  {
    ReachableInv(c, tr, acts, i);
    NoRowIsRunning(tr, saves, tables, |saves|);
    assert tr[i].rows <= tr[i].ever && DistinctStarts(tr[i].ever);
    forall id | id in loaded ensures !loaded[id].isRunning {
      LoadKeepsHistory(c.cron, tables[|saves|][id], now);
    }
    s := World([], Waiting, Board(loaded, map[]), tr[i].rows, tr[i].nextId, map[], [], [], [], tr[i].rows, {});
  }

  /** A run of one toggle, from a dashboard with one job. */
  lemma OneToggle(c: Config, job: JobInfo, at: Time) returns (s: World, s': World)
    requires !job.isRunning
    ensures Execution(c, [s, s'], [Toggle(job.id, at)])
    ensures s.board.jobs == map[job.id := job] && s'.board.jobs == map[job.id := Toggled(job, at)]
  {
    s := World([], Waiting, Board(map[job.id := job], map[]), {}, 1, map[], [], [], [], {}, {});
    s' := s.(board := Board(map[job.id := Toggled(job, at)], map[]));
    assert s.board.jobs[job.id := Toggled(job, at)] == s'.board.jobs;
    assert ToggleStep(s, job.id, at, s');
  }

  /** The table after a save of that one job. */
  function RowOnly(job: JobInfo): Table {
    map[job.id := StoredAs(Snapshot(job), 0)]
  }

  lemma RowOnlyIsPersisted(job: JobInfo, table: Table)
    requires table.Keys <= {job.id}
    ensures Persisted(map[job.id := job], table, RowOnly(job))
  {
  }

  lemma TwoSaves(s: World, s': World, first: Table, second: Table)
    requires Persisted(s'.board.jobs, map[], first) && Persisted(s.board.jobs, first, second)
    ensures Written([s, s'], [Save(1, 1), Save(0, 1)], [map[], first, second])
  {
    var tr, saves, tables := [s, s'], [Save(1, 1), Save(0, 1)], [map[], first, second];
    assert WrittenAt(tr, saves, tables, 0) && WrittenAt(tr, saves, tables, 1);
  }

  /** Saves that overlap can: a job is switched, the copy of that is written first, then one taken before; after a
      restart the switch is back where it was. */
  lemma OverlappingSavesRestoreOlder(c: Config, job: JobInfo, at: Time, now: Time)
    returns (tr: seq<World>, acts: seq<Action>, saves: seq<Save>, tables: seq<Table>, loaded: Jobs)
    requires !job.isRunning
    ensures Saving(c, tr, acts, saves, tables) && |saves| > 0 && !Apart(saves)
    ensures Loaded(c.cron, map[], tables[|saves|], now, loaded)
    ensures var id := job.id;
            id in loaded && id in tr[|acts|].board.jobs && loaded[id].enabled != tr[|acts|].board.jobs[id].enabled
  {
    var s, s' := OneToggle(c, job, at);
    RowOnlyIsPersisted(Toggled(job, at), map[]);
    RowOnlyIsPersisted(job, RowOnly(Toggled(job, at)));
    TwoSaves(s, s', RowOnly(Toggled(job, at)), RowOnly(job));
    tr, acts, saves := [s, s'], [Toggle(job.id, at)], [Save(1, 1), Save(0, 1)];
    tables := [map[], RowOnly(Toggled(job, at)), RowOnly(job)];
    loaded := map[job.id := Reloaded(c.cron, RowOnly(job)[job.id], now)];
    assert saves[0].to > saves[1].at;
  }
}
