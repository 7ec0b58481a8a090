/** What a crontab sync makes of the job table, said without the loop that does it. */
module JobTable {
  import opened Domain

  type Jobs = map<JobId, JobInfo>

  /** Readings of the clock: one per crontab entry the sync looks at. */
  type Clock = nat -> Time

  /** Entry i has a schedule that parses and belongs to job id. */
  predicate Defines(cron: Cron, specs: seq<Spec>, i: nat, id: JobId)
    requires i < |specs|
  {
    HashCommand(specs[i].command) == id && cron.parses(specs[i].spec)
  }

  ghost predicate Listed(cron: Cron, specs: seq<Spec>, n: nat, id: JobId)
    requires n <= |specs|
  {
    exists i: nat :: i < n && Defines(cron, specs, i, id)
  }

  ghost predicate IsFirst(cron: Cron, specs: seq<Spec>, i: nat, id: JobId)
    requires i < |specs|
  {
    Defines(cron, specs, i, id) && forall j: nat :: j < i ==> !Defines(cron, specs, j, id)
  }

  ghost predicate IsLast(cron: Cron, specs: seq<Spec>, n: nat, i: nat, id: JobId)
    requires i < n <= |specs|
  {
    Defines(cron, specs, i, id) && forall j: nat :: i < j < n ==> !Defines(cron, specs, j, id)
  }

  /** The five fields a sync takes from a crontab entry; every other field of a known job stays. */
  function Refreshed(cron: Cron, job: JobInfo, s: Spec, now: Time, index: nat): JobInfo {
    job.(name := s.name, schedule := s.spec, nextRun := cron.next(s.spec, now), updatedAt := now, sortIndex := index)
  }

  function Fresh(cron: Cron, s: Spec, now: Time, index: nat): JobInfo {
    JobInfo(HashCommand(s.command), s.name, s.command, s.spec, cron.next(s.spec, now), ZERO_TIME, Idle, None, 0,
            false, true, now, now, index)
  }

  /** The entry a job gets from its first and last crontab entries: a known job keeps its state, an unknown one is
      made from the first; the last names, schedules and places it. */
  ghost predicate EntryFrom(cron: Cron, jobs: Jobs, specs: seq<Spec>, clock: Clock, n: nat, id: JobId, job: JobInfo,
                            first: nat, last: nat)
    requires n <= |specs|
  {
    && first < n && last < n
    && IsFirst(cron, specs, first, id) && IsLast(cron, specs, n, last, id)
    && job == Refreshed(cron, if id in jobs then jobs[id] else Fresh(cron, specs[first], clock(first), first),
                        specs[last], clock(last), last)
  }

  /** The entry of a listed job after the first n crontab entries. */
  ghost predicate EntrySynced(cron: Cron, jobs: Jobs, specs: seq<Spec>, clock: Clock, n: nat, id: JobId, job: JobInfo)
    requires n <= |specs|
  {
    exists first: nat, last: nat :: EntryFrom(cron, jobs, specs, clock, n, id, job, first, last)
  }

  /** The whole sync: exactly the listed jobs, each with its entry. */
  ghost predicate Synced(cron: Cron, jobs: Jobs, specs: seq<Spec>, clock: Clock, jobs': Jobs) {
    && (forall id :: id in jobs' <==> Listed(cron, specs, |specs|, id))
    && forall id :: id in jobs' ==> EntrySynced(cron, jobs, specs, clock, |specs|, id, jobs'[id])
  }

  /** A sync determines the table. */
  lemma SyncIsUnique(cron: Cron, jobs: Jobs, specs: seq<Spec>, clock: Clock, a: Jobs, b: Jobs)
    requires Synced(cron, jobs, specs, clock, a) && Synced(cron, jobs, specs, clock, b)
    ensures a == b
  {
    forall id | id in a ensures id in b && a[id] == b[id] {
      assert Listed(cron, specs, |specs|, id);
      var first: nat, last: nat :| EntryFrom(cron, jobs, specs, clock, |specs|, id, a[id], first, last);
      var first': nat, last': nat :| EntryFrom(cron, jobs, specs, clock, |specs|, id, b[id], first', last');
      assert first == first' && last == last';
    }
  }

  /** A surviving job keeps its identity, its switch and its run state whatever the crontab says. */
  lemma SyncKeepsRunState(cron: Cron, jobs: Jobs, specs: seq<Spec>, clock: Clock, jobs': Jobs, id: JobId)
    requires Synced(cron, jobs, specs, clock, jobs') && id in jobs && id in jobs'
    ensures var was, job := jobs[id], jobs'[id];
            job.enabled == was.enabled && job.lastRun == was.lastRun && job.lastStatus == was.lastStatus
            && job.lastExitCode == was.lastExitCode && job.lastDuration == was.lastDuration
            && job.isRunning == was.isRunning && job.createdAt == was.createdAt
            && job.id == was.id && job.command == was.command
  {
    assert EntrySynced(cron, jobs, specs, clock, |specs|, id, jobs'[id]);
  }

  /** After a sync the table holds the jobs of exactly those commands that some entry schedules. */
  lemma SyncListsIff(cron: Cron, jobs: Jobs, specs: seq<Spec>, clock: Clock, jobs': Jobs, id: JobId)
    requires Synced(cron, jobs, specs, clock, jobs')
    ensures id in jobs' <==>
            exists i: nat :: i < |specs| && HashCommand(specs[i].command) == id && cron.parses(specs[i].spec)
  {
    if i: nat :| i < |specs| && HashCommand(specs[i].command) == id && cron.parses(specs[i].spec) {
      assert Defines(cron, specs, i, id);
    }
  }

  /** Name, schedule, next run and position come from the command's last entry that parses. A new job is that of the
      entry's command, enabled, idle and without any run, and was made when its first entry was read. */
  lemma SyncPlaces(cron: Cron, jobs: Jobs, specs: seq<Spec>, clock: Clock, jobs': Jobs, id: JobId)
    returns (first: nat, last: nat)
    requires Synced(cron, jobs, specs, clock, jobs') && id in jobs'
    ensures first <= last < |specs|
    ensures HashCommand(specs[first].command) == id && cron.parses(specs[first].spec)
    ensures HashCommand(specs[last].command) == id && cron.parses(specs[last].spec)
    ensures forall j :: 0 <= j < first && HashCommand(specs[j].command) == id ==> !cron.parses(specs[j].spec)
    ensures forall j :: last < j < |specs| && HashCommand(specs[j].command) == id ==> !cron.parses(specs[j].spec)
    ensures jobs'[id].sortIndex == last && jobs'[id].name == specs[last].name && jobs'[id].schedule == specs[last].spec
    ensures jobs'[id].nextRun == cron.next(specs[last].spec, clock(last)) && jobs'[id].updatedAt == clock(last)
    ensures id !in jobs ==>
              && jobs'[id].id == id && HashCommand(jobs'[id].command) == id && jobs'[id].enabled
              && jobs'[id].lastStatus == Idle && !jobs'[id].isRunning && jobs'[id].lastRun == ZERO_TIME
              && jobs'[id].lastExitCode == None && jobs'[id].lastDuration == 0
              && jobs'[id].createdAt == clock(first)
  {
    assert EntrySynced(cron, jobs, specs, clock, |specs|, id, jobs'[id]);
    var f: nat, l: nat :| EntryFrom(cron, jobs, specs, clock, |specs|, id, jobs'[id], f, l);
    first, last := f, l;
    assert !(l < f);
    forall j | 0 <= j < first && HashCommand(specs[j].command) == id ensures !cron.parses(specs[j].spec) {
      assert !Defines(cron, specs, j, id);
    }
    forall j | last < j < |specs| && HashCommand(specs[j].command) == id ensures !cron.parses(specs[j].spec) {
      assert !Defines(cron, specs, j, id);
    }
  }

  /** Whatever the table held before, two syncs with the same crontab agree on which jobs there are and on their
      names, schedules and positions. */
  lemma SyncFollowsCrontab(cron: Cron, specs: seq<Spec>, a: Jobs, clock: Clock, a': Jobs, b: Jobs, clock': Clock,
                           b': Jobs, id: JobId)
    requires Synced(cron, a, specs, clock, a') && Synced(cron, b, specs, clock', b')
    ensures id in a' <==> id in b'
    ensures id in a' ==> a'[id].name == b'[id].name && a'[id].schedule == b'[id].schedule
                         && a'[id].sortIndex == b'[id].sortIndex
  {
    if id in a' {
      assert Listed(cron, specs, |specs|, id);
      var _, i := SyncPlaces(cron, a, specs, clock, a', id);
      var _, j := SyncPlaces(cron, b, specs, clock', b', id);
    }
  }

  /** Every entry belongs to the command it names. */
  ghost predicate Identified(jobs: Jobs) {
    forall id :: id in jobs ==> HashCommand(jobs[id].command) == id
  }

  lemma SyncKeepsIdentified(cron: Cron, jobs: Jobs, specs: seq<Spec>, clock: Clock, jobs': Jobs)
    requires Synced(cron, jobs, specs, clock, jobs') && Identified(jobs)
    ensures Identified(jobs')
  {
    forall id | id in jobs' ensures HashCommand(jobs'[id].command) == id {
      if id in jobs {
        SyncKeepsRunState(cron, jobs, specs, clock, jobs', id);
      } else {
        var _, _ := SyncPlaces(cron, jobs, specs, clock, jobs', id);
      }
    }
  }

  /** The three orderings fall back on the position, so this is what makes them total. */
  ghost predicate DistinctPositions(jobs: Jobs) {
    forall a, b :: a in jobs && b in jobs && jobs[a].sortIndex == jobs[b].sortIndex ==> a == b
  }

  lemma SyncMakesPositionsDistinct(cron: Cron, jobs: Jobs, specs: seq<Spec>, clock: Clock, jobs': Jobs)
    requires Synced(cron, jobs, specs, clock, jobs')
    ensures DistinctPositions(jobs')
  {
    forall a, b | a in jobs' && b in jobs' && jobs'[a].sortIndex == jobs'[b].sortIndex ensures a == b {
      var _, i := SyncPlaces(cron, jobs, specs, clock, jobs', a);
      var _, j := SyncPlaces(cron, jobs, specs, clock, jobs', b);
    }
  }
}
