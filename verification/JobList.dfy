/** The job list as a page shows it: all jobs in some walk of the map, filtered, counted and sorted. */
module JobList {
  import opened Domain
  import opened JobTable
  import opened RunBoard
  import opened Protocol
  import opened Ordering
  import opened Filters
  import opened Persistence
  import opened Restart

  /** A job as a page shows it: of an enabled one the next run is worked out anew. */
  function OnPage(cron: Cron, job: JobInfo, now: Time): JobInfo {
    if job.enabled then WithNextRun(cron, job, now) else job
  }

  /** One walk of the job map: every job once, in any order. */
  ghost predicate Walks(cron: Cron, jobs: Jobs, now: Time, walk: seq<JobInfo>) {
    forall x :: multiset(walk)[x] == if x.id in jobs && OnPage(cron, jobs[x.id], now) == x then 1 else 0
  }

  /** What a page asks for: an order, a tab and a search term. */
  datatype Query = Query(sort: SortMode, filter: FilterMode, search: string)

  /** The jobs a page selects from a walk. */
  function Selected(lower: string -> string, q: Query, walk: seq<JobInfo>): seq<JobInfo> {
    Matching(q.filter, Searched(lower, q.search, walk))
  }

  /** The list a page shows: the selected jobs in the order asked for. */
  ghost predicate Shows(lower: string -> string, q: Query, walk: seq<JobInfo>, shown: seq<JobInfo>) {
    Sorted(q.sort, shown) && multiset(shown) == multiset(Selected(lower, q, walk))
  }

  lemma WalkMembers(cron: Cron, jobs: Jobs, now: Time, walk: seq<JobInfo>, job: JobInfo)
    requires Walks(cron, jobs, now, walk)
    ensures job in walk <==> job.id in jobs && OnPage(cron, jobs[job.id], now) == job
  {
    assert job in walk <==> job in multiset(walk);
  }

  lemma SelectedKeeps(lower: string -> string, q: Query, walk: seq<JobInfo>, x: JobInfo)
    ensures multiset(Selected(lower, q, walk))[x] ==
            if Matches(q.filter, x) && (q.search == "" || Finds(lower, q.search, x)) then multiset(walk)[x] else 0
  {
    MatchingKeepsMatches(q.filter, Searched(lower, q.search, walk), x);
    SearchedKeepsFound(lower, q.search, walk, x);
  }

  /** Two walks of one job map select the same jobs, as often. */
  lemma SameSelection(cron: Cron, jobs: Jobs, now: Time, lower: string -> string, q: Query, walk: seq<JobInfo>,
                      walk': seq<JobInfo>)
    requires Walks(cron, jobs, now, walk) && Walks(cron, jobs, now, walk')
    ensures multiset(Selected(lower, q, walk)) == multiset(Selected(lower, q, walk'))
    ensures |Selected(lower, q, walk)| == |Selected(lower, q, walk')|
  {
    var a, b := Selected(lower, q, walk), Selected(lower, q, walk');
    forall x ensures multiset(a)[x] == multiset(b)[x] {
      SelectedKeeps(lower, q, walk, x);
      SelectedKeeps(lower, q, walk', x);
    }
    assert multiset(a) == multiset(b);
    assert |multiset(a)| == |a| && |multiset(b)| == |b|;
  }

  /** Whatever order the map is walked in, a searched, filtered and sorted job list comes out the same. */
  lemma ListIsDeterministic(cron: Cron, jobs: Jobs, now: Time, lower: string -> string, q: Query, walk: seq<JobInfo>,
                            walk': seq<JobInfo>, shown: seq<JobInfo>, shown': seq<JobInfo>)
    requires DistinctPositions(jobs) && Walks(cron, jobs, now, walk) && Walks(cron, jobs, now, walk')
    requires Shows(lower, q, walk, shown) && Shows(lower, q, walk', shown')
    ensures shown == shown'
  {
    SameSelection(cron, jobs, now, lower, q, walk, walk');
    forall a, b | a in shown && b in shown && a.sortIndex == b.sortIndex ensures a == b {
      ShownIsListed(cron, jobs, now, lower, q, walk, shown, a);
      ShownIsListed(cron, jobs, now, lower, q, walk, shown, b);
    }
    SortedIsUnique(q.sort, shown, shown');
  }

  lemma ShownIsListed(cron: Cron, jobs: Jobs, now: Time, lower: string -> string, q: Query, walk: seq<JobInfo>,
                      shown: seq<JobInfo>, job: JobInfo)
    requires Walks(cron, jobs, now, walk) && Shows(lower, q, walk, shown) && job in shown
    ensures job.id in jobs && OnPage(cron, jobs[job.id], now) == job
  {
    assert job in multiset(shown);
    SelectedKeeps(lower, q, walk, job);
    WalkMembers(cron, jobs, now, walk, job);
  }

  /** What a page shows of a job: everything as in the table, the next run of an enabled one worked out anew. */
  lemma PageShowsJob(cron: Cron, jobs: Jobs, now: Time, walk: seq<JobInfo>, x: JobInfo)
    requires Walks(cron, jobs, now, walk) && x in walk
    ensures x.id in jobs
    ensures var job := jobs[x.id];
            && x.name == job.name && x.command == job.command && x.schedule == job.schedule
            && x.lastRun == job.lastRun && x.lastStatus == job.lastStatus && x.lastExitCode == job.lastExitCode
            && x.lastDuration == job.lastDuration && x.isRunning == job.isRunning && x.enabled == job.enabled
            && x.createdAt == job.createdAt && x.updatedAt == job.updatedAt && x.sortIndex == job.sortIndex
            && (!job.enabled || job.schedule == "" || !cron.parses(job.schedule) ==> x.nextRun == job.nextRun)
    ensures var job := jobs[x.id];
            job.enabled && job.schedule != "" && cron.parses(job.schedule) ==> x.nextRun == cron.next(job.schedule, now)
  {
    WalkMembers(cron, jobs, now, walk, x);
  }

  lemma ShownOnce(cron: Cron, jobs: Jobs, now: Time, lower: string -> string, q: Query, walk: seq<JobInfo>,
                  shown: seq<JobInfo>, i: nat, j: nat)
    requires Walks(cron, jobs, now, walk) && Shows(lower, q, walk, shown) && i < j < |shown|
    ensures shown[i].id != shown[j].id
  {
    ShownIsListed(cron, jobs, now, lower, q, walk, shown, shown[i]);
    ShownIsListed(cron, jobs, now, lower, q, walk, shown, shown[j]);
    SelectedKeeps(lower, q, walk, shown[i]);
    TwiceCountsTwo(shown, i, j);
  }

  lemma TwiceCountsTwo(s: seq<JobInfo>, i: nat, j: nat)
    requires i < j < |s|
    ensures s[i] == s[j] ==> multiset(s)[s[i]] >= 2
  {
    assert s == s[..j] + [s[j]] + s[j + 1..];
    assert s[i] in s[..j];
  }

  /** Entry k is the command's last one with a schedule that parses. */
  ghost predicate IsLastEntry(cron: Cron, specs: seq<Spec>, k: nat, id: JobId) {
    && k < |specs| && HashCommand(specs[k].command) == id && cron.parses(specs[k].spec)
    && forall l :: k < l < |specs| && HashCommand(specs[l].command) == id ==> !cron.parses(specs[l].spec)
  }

  /** Every job's position is that of its command's last entry. */
  ghost predicate PositionsFollow(cron: Cron, specs: seq<Spec>, jobs: Jobs) {
    forall id :: id in jobs ==> PositionFollows(cron, specs, jobs[id], id)
  }

  ghost predicate PositionFollows(cron: Cron, specs: seq<Spec>, job: JobInfo, id: JobId) {
    job.sortIndex >= 0 && IsLastEntry(cron, specs, job.sortIndex, id)
  }

  lemma SyncMakesPositionsFollow(cron: Cron, jobs: Jobs, specs: seq<Spec>, clock: Clock, jobs': Jobs)
    requires Synced(cron, jobs, specs, clock, jobs')
    ensures PositionsFollow(cron, specs, jobs')
  {
    forall id | id in jobs' ensures PositionFollows(cron, specs, jobs'[id], id) {
      var _, _ := SyncPlaces(cron, jobs, specs, clock, jobs', id);
    }
  }

  /** On a default page the jobs are different ones, in the order of their positions in the table. */
  lemma DefaultPageIsByPosition(cron: Cron, jobs: Jobs, now: Time, lower: string -> string, q: Query,
                                walk: seq<JobInfo>, shown: seq<JobInfo>, i: nat, j: nat)
    requires Walks(cron, jobs, now, walk) && q.sort == ByDefault && Shows(lower, q, walk, shown) && i < j < |shown|
    ensures shown[i].id in jobs && shown[j].id in jobs && shown[i].id != shown[j].id
    ensures jobs[shown[i].id].sortIndex <= jobs[shown[j].id].sortIndex
  {
    ShownIsListed(cron, jobs, now, lower, q, walk, shown, shown[i]);
    ShownIsListed(cron, jobs, now, lower, q, walk, shown, shown[j]);
    ShownOnce(cron, jobs, now, lower, q, walk, shown, i, j);
    DefaultIsByPosition(shown, i, j);
  }

  lemma LastEntryIsOne(cron: Cron, specs: seq<Spec>, a: nat, b: nat, id: JobId)
    requires IsLastEntry(cron, specs, a, id) && IsLastEntry(cron, specs, b, id)
    ensures a == b
  {
  }

  lemma EntriesInOrder(cron: Cron, specs: seq<Spec>, job: JobInfo, job': JobInfo, id: JobId, id': JobId, a: nat, b: nat)
    requires PositionFollows(cron, specs, job, id) && PositionFollows(cron, specs, job', id') && id != id'
    requires IsLastEntry(cron, specs, a, id) && IsLastEntry(cron, specs, b, id')
    ensures job.sortIndex <= job'.sortIndex ==> a < b
  {
    LastEntryIsOne(cron, specs, a, job.sortIndex, id);
    LastEntryIsOne(cron, specs, b, job'.sortIndex, id');
  }

  lemma InCrontabOrder(cron: Cron, specs: seq<Spec>, jobs: Jobs, now: Time, lower: string -> string, q: Query,
                       walk: seq<JobInfo>, shown: seq<JobInfo>, i: nat, j: nat, a: nat, b: nat)
    requires PositionsFollow(cron, specs, jobs) && Walks(cron, jobs, now, walk)
    requires q.sort == ByDefault && Shows(lower, q, walk, shown) && i < j < |shown|
    requires IsLastEntry(cron, specs, a, shown[i].id) && IsLastEntry(cron, specs, b, shown[j].id)
    ensures a < b
  {
    var id, id' := shown[i].id, shown[j].id;
    DefaultPageIsByPosition(cron, jobs, now, lower, q, walk, shown, i, j);
    EntriesInOrder(cron, specs, jobs[id], jobs[id'], id, id', a, b);
  }

  /** After a sync the default page is in crontab order: of two jobs shown, the one shown first is the one whose last
      entry with a schedule that parses comes earlier. */
  lemma DefaultPageFollowsCrontab(cron: Cron, jobs: Jobs, specs: seq<Spec>, clock: Clock, jobs': Jobs, now: Time,
                                  lower: string -> string, q: Query, walk: seq<JobInfo>, shown: seq<JobInfo>, i: nat,
                                  j: nat, a: nat, b: nat)
    requires Synced(cron, jobs, specs, clock, jobs') && Walks(cron, jobs', now, walk)
    requires q.sort == ByDefault && Shows(lower, q, walk, shown) && i < j < |shown|
    requires IsLastEntry(cron, specs, a, shown[i].id) && IsLastEntry(cron, specs, b, shown[j].id)
    ensures a < b
  {
    SyncMakesPositionsFollow(cron, jobs, specs, clock, jobs');
    InCrontabOrder(cron, specs, jobs', now, lower, q, walk, shown, i, j, a, b);
  }

  /** Which tabs show a job once an event of it was handled: all jobs, and one more. */
  lemma TabsAfterEvent(cron: Cron, b: Board, e: Event, now: Time, mode: FilterMode, walk: seq<JobInfo>)
    requires var id := HashCommand(e.command); Apply(cron, b, e, now).jobs[id] in walk
    ensures var b', id := Apply(cron, b, e, now), HashCommand(e.command);
            var job := b'.jobs[id];
            && (!job.enabled ==> (job in Matching(mode, walk) <==> mode == All || mode == OnlyDisabled))
            && (job.enabled && id in b'.active ==>
                  (job in Matching(mode, walk) <==> mode == All || mode == OnlyRunning))
            && (job.enabled && id !in b'.active && e.kind == CompletedEvent ==>
                  (job in Matching(mode, walk) <==> mode == All || mode == OnlySuccess))
            && (job.enabled && id !in b'.active && e.kind == FailedEvent ==>
                  (job in Matching(mode, walk) <==> mode == All || mode == OnlyFailed))
  {
    var b', id := Apply(cron, b, e, now), HashCommand(e.command);
    var job := b'.jobs[id];
    ApplySettles(cron, b, e, now);
    MatchingKeepsMatches(mode, walk, job);
    assert job in Matching(mode, walk) <==> job in multiset(Matching(mode, walk));
    assert job in multiset(walk);
  }

  /** And a job that a sync brought in. */
  lemma TabsAfterSync(cron: Cron, jobs: Jobs, specs: seq<Spec>, clock: Clock, jobs': Jobs, id: JobId, mode: FilterMode,
                      walk: seq<JobInfo>)
    requires Synced(cron, jobs, specs, clock, jobs') && id in jobs' && id !in jobs && jobs'[id] in walk
    ensures jobs'[id] in Matching(mode, walk) <==> mode == All || mode == OnlyIdle
  {
    var job := jobs'[id];
    var _, _ := SyncPlaces(cron, jobs, specs, clock, jobs', id);
    MatchingKeepsMatches(mode, walk, job);
    assert job in Matching(mode, walk) <==> job in multiset(Matching(mode, walk));
    assert job in multiset(walk);
  }

  /** The order is settled after a sync, and stays so until an event of a job that is not in the table brings in
      one at position 0 while another is there already. */
  lemma EventKeepsPositionsIff(cron: Cron, b: Board, e: Event, now: Time)
    requires DistinctPositions(b.jobs)
    ensures DistinctPositions(Apply(cron, b, e, now).jobs) <==>
            HashCommand(e.command) in b.jobs || forall id :: id in b.jobs ==> b.jobs[id].sortIndex != 0
  {
    var id, jobs' := HashCommand(e.command), Apply(cron, b, e, now).jobs;
    assert forall x :: x in jobs' <==> x in b.jobs || x == id;
    assert forall x :: x in b.jobs ==> jobs'[x].sortIndex == b.jobs[x].sortIndex;
    assert id !in b.jobs ==> jobs'[id].sortIndex == 0;
    if x :| id !in b.jobs && x in b.jobs && b.jobs[x].sortIndex == 0 {
      assert jobs'[x].sortIndex == jobs'[id].sortIndex;
    }
  }

  /** A dashboard whose job table was not loaded with a running status shows tab counts that add up to the total,
      in every state it can reach. */
  lemma TabsAddUpThroughout(c: Config, tr: seq<World>, acts: seq<Action>, i: nat, now: Time, walk: seq<JobInfo>,
                            s: Stats)
    requires Execution(c, tr, acts) && i < |tr| && StatusesAgree(tr[0].board.jobs)
    requires Walks(c.cron, tr[i].board.jobs, now, walk) && CountsAgree(walk, s)
    ensures s.running + s.success + s.failed + s.idle + s.disabled == s.total
  {
    StatusesAgreeThroughout(c, tr, acts, i);
    forall job | job in walk ensures job.lastStatus == Running <==> job.isRunning {
      WalkMembers(c.cron, tr[i].board.jobs, now, walk, job);
    }
    CountsAddUpIff(walk, s);
  }

  method SortedBy(jobs: seq<JobInfo>, mode: SortMode) returns (res: seq<JobInfo>)
    ensures Sorted(mode, res) && multiset(res) == multiset(jobs)
  {
    var a := new JobInfo[|jobs|](i requires 0 <= i < |jobs| => jobs[i]);
    assert a[..] == jobs;
    SortJobs(a, mode);
    res := a[..];
  }

  /** A walk in the middle: the jobs of rest are still to come. */
  ghost predicate Walked(cron: Cron, jobs: Jobs, now: Time, walk: seq<JobInfo>, rest: set<JobId>) {
    forall x :: multiset(walk)[x] ==
                if x.id in jobs && x.id !in rest && OnPage(cron, jobs[x.id], now) == x then 1 else 0
  }

  lemma OneMoreWalked(cron: Cron, jobs: Jobs, now: Time, walk: seq<JobInfo>, rest: set<JobId>, id: JobId)
    requires id in rest && id in jobs && jobs[id].id == id
    requires Walked(cron, jobs, now, walk, rest)
    ensures Walked(cron, jobs, now, walk + [OnPage(cron, jobs[id], now)], rest - {id})
  {
  }

  /** The failing jobs of a page: those of the failed tab, newest run first, whatever is searched for. */
  const FAILING := Query(ByLastRun, OnlyFailed, "")

  /** What the page would show of the tab without the search, counted only when the search leaves nothing. */
  function HiddenBySearch(q: Query, walk: seq<JobInfo>, shown: seq<JobInfo>): nat {
    if shown == [] && q.search != "" then |Matching(q.filter, walk)| else 0
  }

  /** The page made from one walk: counts of all jobs, the failing ones, the list asked for, and how many jobs of the
      tab a search without a result hides. */
  ghost predicate PageFrom(cron: Cron, jobs: Jobs, now: Time, lower: string -> string, q: Query, walk: seq<JobInfo>,
                           stats: Stats, shown: seq<JobInfo>, hidden: nat) {
    && Walks(cron, jobs, now, walk)
    && CountsAgree(walk, stats.(failing := Matching(OnlyFailed, walk)))
    && Shows(lower, FAILING, walk, stats.failing)
    && Shows(lower, q, walk, shown)
    && hidden == HiddenBySearch(q, walk, shown)
  }

  method JobsWithStats(cron: Cron, jobs: Jobs, now: Time, lower: string -> string, q: Query)
    returns (stats: Stats, shown: seq<JobInfo>, hidden: nat)
    requires forall id :: id in jobs ==> jobs[id].id == id
    ensures exists walk :: PageFrom(cron, jobs, now, lower, q, walk, stats, shown, hidden)
  {
    var allJobs: seq<JobInfo> := [];
    var rest := jobs.Keys;
    while rest != {}
      invariant rest <= jobs.Keys && Walked(cron, jobs, now, allJobs, rest)
      decreases rest
    {
      var id :| id in rest;
      OneMoreWalked(cron, jobs, now, allJobs, rest, id);
      var job := jobs[id];
      if job.enabled { job := WithNextRun(cron, job, now); }
      allJobs := allJobs + [job];
      rest := rest - {id};
    }
    stats := CountJobs(allJobs);
    var failing := SortedBy(stats.failing, ByLastRun);
    stats := stats.(failing := failing);
    var searched := SearchJobs(lower, allJobs, q.search);
    var filtered := FilterJobs(searched, q.filter);
    hidden := 0;
    if |filtered| == 0 && q.search != "" {
      var unsearched := FilterJobs(allJobs, q.filter);
      hidden := |unsearched|;
    }
    shown := SortedBy(filtered, q.sort);
    assert |multiset(shown)| == |shown| && |multiset(filtered)| == |filtered|;
    assert PageFrom(cron, jobs, now, lower, q, allJobs, stats, shown, hidden);
  }

  /** A search that leaves nothing hides exactly the jobs of the tab: none of them is found. */
  lemma HiddenAreNotFound(lower: string -> string, q: Query, walk: seq<JobInfo>, shown: seq<JobInfo>, job: JobInfo)
    requires Shows(lower, q, walk, shown)
    ensures HiddenBySearch(q, walk, shown) > 0 && job in Matching(q.filter, walk) ==>
              q.search != "" && !Finds(lower, q.search, job)
  {
    SelectedKeeps(lower, q, walk, job);
    MatchingKeepsMatches(q.filter, walk, job);
    assert job in Matching(q.filter, walk) <==> job in multiset(Matching(q.filter, walk));
  }

  /** The failing jobs of a page are the enabled ones whose last run failed, the one that ran last first. */
  lemma FailingAreNewestFirst(cron: Cron, jobs: Jobs, now: Time, lower: string -> string, q: Query, walk: seq<JobInfo>,
                              stats: Stats, shown: seq<JobInfo>, hidden: nat, x: JobInfo, i: nat, j: nat)
    requires PageFrom(cron, jobs, now, lower, q, walk, stats, shown, hidden)
    ensures x in stats.failing <==> x in walk && x.enabled && x.lastStatus == Failed
    ensures i < j < |stats.failing| && stats.failing[j].lastRun != ZERO_TIME ==>
              stats.failing[i].lastRun >= stats.failing[j].lastRun
    ensures i < j < |stats.failing| && stats.failing[i].lastRun == ZERO_TIME ==>
              stats.failing[j].lastRun == ZERO_TIME
  {
    SelectedKeeps(lower, FAILING, walk, x);
    assert x in stats.failing <==> x in multiset(stats.failing);
    assert x in walk <==> x in multiset(walk);
    if i < j < |stats.failing| {
      ZeroTimesLast(stats.failing, i, j);
    }
  }

  /** A search that leaves nothing of a tab reports how many jobs the tab has without it; any other page reports
      none. */
  lemma HiddenCounts(cron: Cron, jobs: Jobs, now: Time, lower: string -> string, q: Query, walk: seq<JobInfo>,
                     stats: Stats, shown: seq<JobInfo>, hidden: nat)
    requires PageFrom(cron, jobs, now, lower, q, walk, stats, shown, hidden)
    ensures shown == [] && q.search != "" ==> hidden == |Matching(q.filter, walk)|
    ensures shown != [] || q.search == "" ==> hidden == 0
  {
  }

  lemma SameCount(cron: Cron, jobs: Jobs, now: Time, walk: seq<JobInfo>, walk': seq<JobInfo>, mode: FilterMode)
    requires Walks(cron, jobs, now, walk) && Walks(cron, jobs, now, walk')
    ensures |Matching(mode, walk)| == |Matching(mode, walk')|
  {
    SameSelection(cron, jobs, now, s => s, Query(ByDefault, mode, ""), walk, walk');
  }

  /** With distinct positions there is one page: list, counts and failing jobs are settled by the job map. */
  lemma PageIsUnique(cron: Cron, jobs: Jobs, now: Time, lower: string -> string, q: Query, walk: seq<JobInfo>,
                     stats: Stats, shown: seq<JobInfo>, hidden: nat, walk': seq<JobInfo>, stats': Stats,
                     shown': seq<JobInfo>, hidden': nat)
    requires DistinctPositions(jobs)
    requires PageFrom(cron, jobs, now, lower, q, walk, stats, shown, hidden)
    requires PageFrom(cron, jobs, now, lower, q, walk', stats', shown', hidden')
    ensures stats == stats' && shown == shown' && hidden == hidden'
  {
    ListIsDeterministic(cron, jobs, now, lower, q, walk, walk', shown, shown');
    ListIsDeterministic(cron, jobs, now, lower, FAILING, walk, walk', stats.failing, stats'.failing);
    SameCount(cron, jobs, now, walk, walk', All);
    SameCount(cron, jobs, now, walk, walk', OnlyRunning);
    SameCount(cron, jobs, now, walk, walk', OnlySuccess);
    SameCount(cron, jobs, now, walk, walk', OnlyFailed);
    SameCount(cron, jobs, now, walk, walk', OnlyIdle);
    SameCount(cron, jobs, now, walk, walk', OnlyDisabled);
    SameCount(cron, jobs, now, walk, walk', q.filter);
  }

  // ----- where the page goes wrong -----

  /** Two jobs at one position: the starts of two commands that no sync has brought in. */
  lemma NewJobsShareAPosition(cron: Cron, e: Event, e': Event, now: Time)
    requires e.kind == StartEvent && e'.kind == StartEvent && e.command != e'.command
    ensures !DistinctPositions(Apply(cron, Apply(cron, Board(map[], map[]), e, now), e', now).jobs)
  {
    var jobs := Apply(cron, Apply(cron, Board(map[], map[]), e, now), e', now).jobs;
    var id, id' := HashCommand(e.command), HashCommand(e'.command);
    assert id in jobs && id' in jobs && jobs[id].sortIndex == jobs[id'].sortIndex;
  }

  /** Counts that do not add up: the one job was saved while it ran, and is loaded with the running status but not
      running, so no tab counts it. */
  lemma SavedWhileRunningIsNotCounted(cron: Cron, e: Event, now: Time, later: Time)
    returns (table: Table, loaded: Jobs, walk: seq<JobInfo>, s: Stats)
    requires e.kind == StartEvent
    ensures Persisted(Apply(cron, Board(map[], map[]), e, now).jobs, map[], table)
    ensures Loaded(cron, map[], table, later, loaded) && !StatusesAgree(loaded)
    ensures Walks(cron, loaded, later, walk) && CountsAgree(walk, s)
    ensures s.total == 1 && s.running + s.success + s.failed + s.idle + s.disabled == 0
  {
    table, loaded := SavedWhileRunning(cron, e, now, later);
    var id := HashCommand(e.command);
    var job := OnPage(cron, loaded[id], later);
    walk, s := [job], Stats(1, 0, 0, 0, 0, 0, []);
    assert Walks(cron, loaded, later, walk);
    forall mode ensures |Matching(mode, walk)| == if Matches(mode, job) then 1 else 0 {
      MatchingAppend(mode, [], job);
      assert [] + [job] == walk;
    }
  }
}
