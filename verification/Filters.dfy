/** The filter tabs and their counts. */
module Filters {
  import opened Domain

  datatype FilterMode = All | OnlyRunning | OnlySuccess | OnlyFailed | OnlyIdle | OnlyDisabled

  predicate Matches(mode: FilterMode, job: JobInfo) {
    match mode
    case All => true
    case OnlyDisabled => !job.enabled
    case OnlyRunning => job.enabled && job.isRunning
    case OnlySuccess => job.enabled && job.lastStatus == Success
    case OnlyFailed => job.enabled && job.lastStatus == Failed
    case OnlyIdle => job.enabled && job.lastStatus == Idle
  }

  /** The jobs with property p, in the order given. */
  function Keep(p: JobInfo -> bool, jobs: seq<JobInfo>): seq<JobInfo> {
    if jobs == [] then []
    else
      var before, last := Keep(p, jobs[..|jobs| - 1]), jobs[|jobs| - 1];
      if p(last) then before + [last] else before
  }

  lemma {:induction false} KeepAppend(p: JobInfo -> bool, jobs: seq<JobInfo>, job: JobInfo)
    ensures Keep(p, jobs + [job]) == if p(job) then Keep(p, jobs) + [job] else Keep(p, jobs)
  {
    assert (jobs + [job])[..|jobs|] == jobs;
  }

  lemma {:induction false} KeepCounts(p: JobInfo -> bool, jobs: seq<JobInfo>, job: JobInfo)
    ensures multiset(Keep(p, jobs))[job] == if p(job) then multiset(jobs)[job] else 0
  {
    if jobs != [] {
      assert jobs == jobs[..|jobs| - 1] + [jobs[|jobs| - 1]];
      KeepCounts(p, jobs[..|jobs| - 1], job);
    }
  }

  lemma {:induction false} KeepAll(p: JobInfo -> bool, jobs: seq<JobInfo>)
    requires forall job :: p(job)
    ensures Keep(p, jobs) == jobs
  {
    if jobs != [] {
      KeepAll(p, jobs[..|jobs| - 1]);
    }
  }

  lemma {:induction false} KeepsCommute(p: JobInfo -> bool, q: JobInfo -> bool, jobs: seq<JobInfo>)
    ensures Keep(p, Keep(q, jobs)) == Keep(q, Keep(p, jobs))
  {
    if jobs != [] {
      var init, last := jobs[..|jobs| - 1], jobs[|jobs| - 1];
      KeepsCommute(p, q, init);
      if q(last) { KeepAppend(p, Keep(q, init), last); }
      if p(last) { KeepAppend(q, Keep(p, init), last); }
    }
  }

  /** The jobs a tab shows. */
  function Matching(mode: FilterMode, jobs: seq<JobInfo>): seq<JobInfo> {
    Keep(job => Matches(mode, job), jobs)
  }

  /** A tab shows every matching job as often as it is listed, and no other. */
  lemma MatchingKeepsMatches(mode: FilterMode, jobs: seq<JobInfo>, job: JobInfo)
    ensures multiset(Matching(mode, jobs))[job] == if Matches(mode, job) then multiset(jobs)[job] else 0
  {
    KeepCounts(j => Matches(mode, j), jobs, job);
  }

  method FilterJobs(jobs: seq<JobInfo>, mode: FilterMode) returns (filtered: seq<JobInfo>)
    ensures filtered == Matching(mode, jobs)
  {
    if mode == All {
      MatchingAll(jobs);
      return jobs;
    }
    filtered := [];
    for i := 0 to |jobs|
      invariant filtered == Matching(mode, jobs[..i])
    {
      MatchingAppend(mode, jobs[..i], jobs[i]);
      assert jobs[..i + 1] == jobs[..i] + [jobs[i]];
      if Matches(mode, jobs[i]) { filtered := filtered + [jobs[i]]; }
    }
    assert jobs[..|jobs|] == jobs;
  }

  lemma MatchingAll(jobs: seq<JobInfo>)
    ensures Matching(All, jobs) == jobs
  {
    KeepAll(job => Matches(All, job), jobs);
  }

  lemma MatchingAppend(mode: FilterMode, jobs: seq<JobInfo>, job: JobInfo)
    ensures Matching(mode, jobs + [job]) ==
            if Matches(mode, job) then Matching(mode, jobs) + [job] else Matching(mode, jobs)
  {
    KeepAppend(j => Matches(mode, j), jobs, job);
  }

  // ----- the search box -----

  predicate Contains(s: string, part: string) {
    exists i :: 0 <= i <= |s| && part <= s[i..]
  }

  /** The term is in the command or in the name, once both are mapped to lower case. */
  predicate Finds(lower: string -> string, term: string, job: JobInfo) {
    Contains(lower(job.command), lower(term)) || Contains(lower(job.name), lower(term))
  }

  function Searched(lower: string -> string, term: string, jobs: seq<JobInfo>): seq<JobInfo> {
    if term == "" then jobs else Keep(job => Finds(lower, term, job), jobs)
  }

  method SearchJobs(lower: string -> string, jobs: seq<JobInfo>, term: string) returns (filtered: seq<JobInfo>)
    ensures filtered == Searched(lower, term, jobs)
  {
    if term == "" { return jobs; }
    filtered := [];
    ghost var found := job => Finds(lower, term, job);
    for i := 0 to |jobs|
      invariant filtered == Keep(found, jobs[..i])
    {
      KeepAppend(found, jobs[..i], jobs[i]);
      assert jobs[..i + 1] == jobs[..i] + [jobs[i]];
      if Finds(lower, term, jobs[i]) { filtered := filtered + [jobs[i]]; }
    }
    assert jobs[..|jobs|] == jobs;
  }

  lemma ContainsIff(s: string, part: string)
    ensures Contains(s, part) <==> exists a, b :: s == a + part + b
  {
    if i :| 0 <= i <= |s| && part <= s[i..] {
      assert s == s[..i] + part + s[i + |part|..];
    }
    if a, b :| s == a + part + b {
      assert part <= s[|a|..];
    }
  }

  /** A search keeps exactly the jobs with the term somewhere in their command or their name, in lower case; an empty
      term keeps them all. */
  lemma SearchedIff(lower: string -> string, term: string, jobs: seq<JobInfo>, job: JobInfo)
    ensures job in Searched(lower, term, jobs) <==>
            && job in jobs
            && (term == "" || (exists a, b :: lower(job.command) == a + lower(term) + b)
                || (exists a, b :: lower(job.name) == a + lower(term) + b))
  {
    SearchedKeepsFound(lower, term, jobs, job);
    ContainsIff(lower(job.command), lower(term));
    ContainsIff(lower(job.name), lower(term));
    assert job in Searched(lower, term, jobs) <==> job in multiset(Searched(lower, term, jobs));
    assert job in jobs <==> job in multiset(jobs);
  }

  /** Searching keeps a job as often as it is listed, or not at all. */
  lemma SearchedKeepsFound(lower: string -> string, term: string, jobs: seq<JobInfo>, job: JobInfo)
    ensures multiset(Searched(lower, term, jobs))[job] ==
            if term == "" || Finds(lower, term, job) then multiset(jobs)[job] else 0
  {
    KeepCounts(j => Finds(lower, term, j), jobs, job);
  }

  /** It makes no difference whether the list is searched or filtered first. */
  lemma SearchAndFilterCommute(lower: string -> string, term: string, mode: FilterMode, jobs: seq<JobInfo>)
    ensures Matching(mode, Searched(lower, term, jobs)) == Searched(lower, term, Matching(mode, jobs))
  {
    KeepsCommute(job => Matches(mode, job), job => Finds(lower, term, job), jobs);
  }

  // ----- the counts -----

  datatype Stats = Stats(total: nat, running: nat, success: nat, failed: nat, idle: nat, disabled: nat,
                         failing: seq<JobInfo>)

  /** Every tab's count is the number of jobs the tab shows, and the failing list is the failed tab's. */
  ghost predicate CountsAgree(jobs: seq<JobInfo>, s: Stats) {
    && s.total == |Matching(All, jobs)|
    && s.running == |Matching(OnlyRunning, jobs)|
    && s.success == |Matching(OnlySuccess, jobs)|
    && s.failed == |Matching(OnlyFailed, jobs)|
    && s.idle == |Matching(OnlyIdle, jobs)|
    && s.disabled == |Matching(OnlyDisabled, jobs)|
    && s.failing == Matching(OnlyFailed, jobs)
  }

  function Counted(s: Stats, job: JobInfo): Stats {
    if !job.enabled then s.(disabled := s.disabled + 1)
    else
      var r := if job.isRunning then s.(running := s.running + 1) else s;
      match job.lastStatus
      case Success => r.(success := s.success + 1)
      case Failed => r.(failed := s.failed + 1, failing := s.failing + [job])
      case Idle => r.(idle := s.idle + 1)
      case Running => r
  }

  lemma CountedAgrees(jobs: seq<JobInfo>, job: JobInfo, s: Stats)
    requires CountsAgree(jobs, s)
    ensures CountsAgree(jobs + [job], Counted(s, job).(total := s.total + 1))
  {
    MatchingAppend(All, jobs, job);
    MatchingAppend(OnlyRunning, jobs, job);
    MatchingAppend(OnlySuccess, jobs, job);
    MatchingAppend(OnlyFailed, jobs, job);
    MatchingAppend(OnlyIdle, jobs, job);
    MatchingAppend(OnlyDisabled, jobs, job);
  }

  method CountJobs(jobs: seq<JobInfo>) returns (s: Stats)
    ensures CountsAgree(jobs, s)
  {
    s := Stats(|jobs|, 0, 0, 0, 0, 0, []);
    for i := 0 to |jobs|
      invariant CountsAgree(jobs[..i], s.(total := i)) && s.total == |jobs|
    {
      var job := jobs[i];
      CountedAgrees(jobs[..i], job, s.(total := i));
      assert jobs[..i + 1] == jobs[..i] + [job];
      if !job.enabled {
        s := s.(disabled := s.disabled + 1);
      } else {
        if job.isRunning { s := s.(running := s.running + 1); }
        match job.lastStatus
        case Success => s := s.(success := s.success + 1);
        case Failed => s := s.(failed := s.failed + 1, failing := s.failing + [job]);
        case Idle => s := s.(idle := s.idle + 1);
        case Running =>
      }
    }
    assert jobs[..|jobs|] == jobs;
  }

  /** An enabled job that the tabs would count exactly once. */
  predicate CountedOnce(job: JobInfo) {
    !job.enabled || (job.lastStatus == Running <==> job.isRunning)
  }

  ghost function InTabs(jobs: seq<JobInfo>): nat {
    |Matching(OnlyRunning, jobs)| + |Matching(OnlySuccess, jobs)| + |Matching(OnlyFailed, jobs)|
    + |Matching(OnlyIdle, jobs)| + |Matching(OnlyDisabled, jobs)|
  }

  lemma OneMoreInTabs(jobs: seq<JobInfo>, job: JobInfo)
    requires job.isRunning ==> job.lastStatus == Running
    ensures InTabs(jobs + [job]) == InTabs(jobs) + if CountedOnce(job) then 1 else 0
  {
    MatchingAppend(OnlyRunning, jobs, job);
    MatchingAppend(OnlySuccess, jobs, job);
    MatchingAppend(OnlyFailed, jobs, job);
    MatchingAppend(OnlyIdle, jobs, job);
    MatchingAppend(OnlyDisabled, jobs, job);
  }

  lemma {:induction false} TabsCover(jobs: seq<JobInfo>)
    requires forall job :: job in jobs && job.isRunning ==> job.lastStatus == Running
    ensures InTabs(jobs) <= |jobs|
    ensures InTabs(jobs) == |jobs| <==> forall job :: job in jobs ==> CountedOnce(job)
  {
    if jobs != [] {
      var init, last := jobs[..|jobs| - 1], jobs[|jobs| - 1];
      assert jobs == init + [last];
      TabsCover(init);
      OneMoreInTabs(init, last);
      assert forall job :: job in jobs <==> job in init || job == last;
    }
  }

  /** Given that a job shown running has the running status, the five tabs add up to all jobs exactly when no
      enabled job has the running status without running. */
  lemma CountsAddUpIff(jobs: seq<JobInfo>, s: Stats)
    requires CountsAgree(jobs, s)
    requires forall job :: job in jobs && job.isRunning ==> job.lastStatus == Running
    ensures s.running + s.success + s.failed + s.idle + s.disabled == s.total <==>
            forall job :: job in jobs && job.enabled && job.lastStatus == Running ==> job.isRunning
  {
    TabsCover(jobs);
    MatchingAll(jobs);
    if forall job :: job in jobs && job.enabled && job.lastStatus == Running ==> job.isRunning {
      assert forall job :: job in jobs ==> CountedOnce(job);
    } else {
      var job :| job in jobs && job.enabled && job.lastStatus == Running && !job.isRunning;
      assert !CountedOnce(job);
    }
  }
}
