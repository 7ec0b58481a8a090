/** The two pages that read twice while the protocol runs on: the inspector (runs in progress, then history) and the
    live output of one run (runs in progress, then that run's row). A request is two positions i <= j in a run. */
module Readers {
  import opened Domain
  import opened RunBoard
  import opened Executions
  import opened Protocol

  /** How many recorded runs the inspector lists. */
  const INSPECTOR_RUNS := 50

  /** The job's runs in progress, each once, newest first. */
  ghost predicate Listing(b: Board, job: JobId, act: seq<ActiveRun>) {
    && (forall i :: 0 <= i < |act| ==>
          b.Tracks(RunKey(job, Micro(act[i].startedAt))) && b.active[job][Micro(act[i].startedAt)] == act[i])
    && (forall i, j :: 0 <= i < j < |act| ==> act[i].startedAt > act[j].startedAt)
    && (forall k :: b.Tracks(RunKey(job, k)) ==> exists i :: 0 <= i < |act| && Micro(act[i].startedAt) == k)
  }

  predicate RowAt(history: seq<Row>, k: int) {
    exists i :: 0 <= i < |history| && Micro(history[i].startedAt) == k
  }

  /** The runs in progress that history does not hold: for a run found in both, its recorded row wins. */
  function Unrecorded(act: seq<ActiveRun>, history: seq<Row>): seq<ActiveRun> {
    if act == [] then []
    else Unrecorded(act[..|act| - 1], history) +
         if RowAt(history, Micro(act[|act| - 1].startedAt)) then [] else [act[|act| - 1]]
  }

  function ActiveStarts(act: seq<ActiveRun>): seq<int> {
    seq(|act|, i requires 0 <= i < |act| => Micro(act[i].startedAt))
  }

  function RowStarts(history: seq<Row>): seq<int> {
    seq(|history|, i requires 0 <= i < |history| => Micro(history[i].startedAt))
  }

  /** Everything the inspector shows, by start: first the runs in progress, then history. */
  function Shown(act: seq<ActiveRun>, history: seq<Row>): seq<int> {
    ActiveStarts(Unrecorded(act, history)) + RowStarts(history)
  }

  ghost predicate NoRepeats(s: seq<int>) {
    forall i, j :: 0 <= i < j < |s| ==> s[i] != s[j]
  }

  lemma {:induction false} CountWithoutRepeats(s: seq<int>, k: int)
    requires NoRepeats(s)
    ensures multiset(s)[k] == if k in s then 1 else 0
  {
    if s != [] {
      var init := s[..|s| - 1];
      assert s == init + [s[|s| - 1]];
      CountWithoutRepeats(init, k);
    }
  }

  lemma {:induction false} UnrecordedKeeps(act: seq<ActiveRun>, history: seq<Row>)
    requires NoRepeats(ActiveStarts(act))
    ensures NoRepeats(ActiveStarts(Unrecorded(act, history)))
    ensures forall k :: k in ActiveStarts(Unrecorded(act, history)) <==> k in ActiveStarts(act) && !RowAt(history, k)
  {
    if act != [] {
      var init, a := act[..|act| - 1], act[|act| - 1];
      assert ActiveStarts(act) == ActiveStarts(init) + [Micro(a.startedAt)];
      assert NoRepeats(ActiveStarts(init)) by {
        assert forall i :: 0 <= i < |init| ==> ActiveStarts(init)[i] == ActiveStarts(act)[i];
      }
      UnrecordedKeeps(init, history);
      var kept := Unrecorded(init, history);
      assert ActiveStarts(kept + [a]) == ActiveStarts(kept) + [Micro(a.startedAt)];
      assert kept + [] == kept;
      assert Micro(a.startedAt) !in ActiveStarts(init) by {
        forall i | 0 <= i < |init| ensures ActiveStarts(init)[i] != Micro(a.startedAt) {
          assert ActiveStarts(act)[i] != ActiveStarts(act)[|act| - 1];
        }
      }
    }
  }

  lemma HistoryHasNoRepeats(rows: set<Row>, job: JobId, n: nat, history: seq<Row>)
    requires DistinctStarts(rows) && Selection(rows, job, n, history)
    ensures NoRepeats(RowStarts(history))
  {
    forall i, j | 0 <= i < j < |history| ensures RowStarts(history)[i] != RowStarts(history)[j] {
      assert history[i] in rows && history[j] in rows && history[i] != history[j];
      assert history[i].Key() != history[j].Key();
    }
  }

  /** An inspector request: its two reads at positions i and j of a run. */
  ghost predicate Inspection(c: Config, tr: seq<World>, acts: seq<Action>, i: nat, j: nat, job: JobId,
                             act: seq<ActiveRun>, history: seq<Row>) {
    && Execution(c, tr, acts) && i <= j < |tr|
    && Listing(tr[i].board, job, act)
    && Selection(tr[j].rows, job, INSPECTOR_RUNS, history)
  }

  /** Whatever happens between the two reads, the inspector never shows a run twice, and it shows exactly the runs
      that were in progress at the first read or are among the 50 newest recorded at the second. */
  lemma InspectorShows(c: Config, tr: seq<World>, acts: seq<Action>, i: nat, j: nat, job: JobId,
                       act: seq<ActiveRun>, history: seq<Row>, k: int)
    requires Inspection(c, tr, acts, i, j, job, act, history)
    ensures multiset(Shown(act, history))[k] ==
            if tr[i].board.Tracks(RunKey(job, k)) || HasRow(Newest(tr[j].rows, job, INSPECTOR_RUNS), RunKey(job, k))
            then 1 else 0
  {
    ReachableInv(c, tr, acts, i);
    ReachableInv(c, tr, acts, j);
    var rows := tr[j].rows;
    HistoryHasNoRepeats(rows, job, INSPECTOR_RUNS, history);
    SelectionIsNewest(rows, job, INSPECTOR_RUNS, history);
    ListingStarts(tr[i].board, job, act);
    UnrecordedKeeps(act, history);
    RowStartsAre(history, job, k);
    CountWithoutRepeats(ActiveStarts(Unrecorded(act, history)), k);
    CountWithoutRepeats(RowStarts(history), k);
    assert k in ActiveStarts(act) <==> tr[i].board.Tracks(RunKey(job, k));
    assert (set r | r in history) == Newest(rows, job, INSPECTOR_RUNS);
    assert HasRow((set r | r in history), RunKey(job, k)) <==>
           HasRow(Newest(rows, job, INSPECTOR_RUNS), RunKey(job, k));
  }

  lemma ListingStarts(b: Board, job: JobId, act: seq<ActiveRun>)
    requires Consistent(b) && Listing(b, job, act)
    ensures NoRepeats(ActiveStarts(act))
    ensures forall k :: k in ActiveStarts(act) <==> b.Tracks(RunKey(job, k))
  {
    forall k | b.Tracks(RunKey(job, k)) ensures k in ActiveStarts(act) {
      var i :| 0 <= i < |act| && Micro(act[i].startedAt) == k;
      assert ActiveStarts(act)[i] == k;
    }
  }

  lemma RowStartsAre(history: seq<Row>, job: JobId, k: int)
    requires forall i :: 0 <= i < |history| ==> history[i].job == job
    ensures k in RowStarts(history) <==> RowAt(history, k)
    ensures RowAt(history, k) <==> HasRow((set r | r in history), RunKey(job, k))
  {
    if RowAt(history, k) {
      var i :| 0 <= i < |history| && Micro(history[i].startedAt) == k;
      assert RowStarts(history)[i] == k;
      assert history[i].Key() == RunKey(job, k);
    }
  }

  /** In every interleaving, a run whose start was handled before the first read appears exactly once, provided its
      record was not lost to a failed write and fewer than 50 (and than the retention limit, when set) recorded
      runs of that job are newer. */
  lemma InspectorShowsEveryRun(c: Config, tr: seq<World>, acts: seq<Action>, i: nat, j: nat, key: RunKey,
                               act: seq<ActiveRun>, history: seq<Row>)
    requires Inspection(c, tr, acts, i, j, key.job, act, history)
    requires StartIn(tr[i].handled, key) && key !in tr[j].lost
    requires forall r :: r in tr[j].ever && r.Key() == key ==>
               |Newer(tr[j].ever, r)| < INSPECTOR_RUNS &&
               (c.retention > 0 ==> |Newer(tr[j].ever, r)| < c.retention)
    ensures multiset(Shown(act, history))[key.start] == 1
  {
    InspectorShows(c, tr, acts, i, j, key.job, act, history, key.start);
    if !tr[i].board.Tracks(key) {
      FinishedIsRecorded(c, tr, acts, i, j, key);
      ReachableInv(c, tr, acts, j);
      var r :| r in tr[j].ever && r.Key() == key;
      SubsetCardinality(Newer(tr[j].rows, r), Newer(tr[j].ever, r));
      assert r in Newest(tr[j].rows, key.job, INSPECTOR_RUNS);
    }
  }

  /** Exactly when a started run is shown, with no retention limit: while it is in progress, and after that as long as
      its write did not fail and fewer than 50 recorded runs of the job are newer. */
  lemma InspectorShowsEveryRunIff(c: Config, tr: seq<World>, acts: seq<Action>, i: nat, j: nat, key: RunKey,
                                  act: seq<ActiveRun>, history: seq<Row>)
    requires Inspection(c, tr, acts, i, j, key.job, act, history)
    requires StartIn(tr[i].handled, key) && c.retention <= 0
    ensures multiset(Shown(act, history))[key.start] == 1 <==>
            || tr[i].board.Tracks(key)
            || (key !in tr[j].lost &&
                forall r :: r in tr[j].ever && r.Key() == key ==> |Newer(tr[j].ever, r)| < INSPECTOR_RUNS)
  {
    InspectorShows(c, tr, acts, i, j, key.job, act, history, key.start);
    ReachableInv(c, tr, acts, j);
    assert tr[j].rows == tr[j].ever && DistinctStarts(tr[j].ever);
    if HasRow(Newest(tr[j].rows, key.job, INSPECTOR_RUNS), key) {
      var r :| r in Newest(tr[j].rows, key.job, INSPECTOR_RUNS) && r.Key() == key;
      assert HasRow(tr[j].ever, key);
      assert forall x :: x in tr[j].ever && x.Key() == key ==> x == r;
    } else if !tr[i].board.Tracks(key) && key !in tr[j].lost {
      FinishedIsRecorded(c, tr, acts, i, j, key);
      var r :| r in tr[j].ever && r.Key() == key;
      assert r !in Newest(tr[j].rows, key.job, INSPECTOR_RUNS);
    }
  }

  /** A run whose write failed is shown only while it is in progress, whatever the retention limit. */
  lemma LostRunIsNotShown(c: Config, tr: seq<World>, acts: seq<Action>, i: nat, j: nat, key: RunKey,
                          act: seq<ActiveRun>, history: seq<Row>)
    requires Inspection(c, tr, acts, i, j, key.job, act, history)
    requires key in tr[j].lost && !tr[i].board.Tracks(key)
    ensures key.start !in multiset(Shown(act, history))
  {
    InspectorShows(c, tr, acts, i, j, key.job, act, history, key.start);
    NoRowOfLost(c, tr, acts, j, key);
    assert forall r :: r in Newest(tr[j].rows, key.job, INSPECTOR_RUNS) ==> r in tr[j].rows;
  }

  lemma NoRowOfLost(c: Config, tr: seq<World>, acts: seq<Action>, j: nat, key: RunKey)
    requires Execution(c, tr, acts) && j < |tr| && key in tr[j].lost
    ensures !HasRow(tr[j].rows, key)
  {
    ReachableInv(c, tr, acts, j);
    assert tr[j].rows <= tr[j].ever;
    assert !HasRow(tr[j].ever, key);
  }

  /** What the live output request answers: Missing for a job it does not know, Unavailable when the table could not
      be read. */
  datatype Answer = Live(run: ActiveRun) | Recorded(row: Row) | Gone | Missing | Unavailable

  ghost predicate Answers(known: bool, b: Board, rows: set<Row>, io: bool, key: RunKey, ans: Answer) {
    if !known then ans == Missing
    else if b.Tracks(key) then ans == Live(b.active[key.job][key.start])
    else if !io then ans == Unavailable
    else if HasRow(rows, key) then ans.Recorded? && ans.row in rows && ans.row.Key() == key
    else ans == Gone
  }

  /** A live output request: it looks the job up, the runs in progress at position i, and the rows at j. */
  ghost predicate Lookup(c: Config, tr: seq<World>, acts: seq<Action>, known: bool, i: nat, j: nat, io: bool,
                         key: RunKey, ans: Answer) {
    && Execution(c, tr, acts) && i <= j < |tr|
    && Answers(known, tr[i].board, tr[j].rows, io, key, ans)
  }

  /** It never answers with another run, and for a run whose start was handled it says "gone" only when that run had
      finished and its row was pruned or never written; a pruned row has at least the retention limit of newer ones. */
  lemma LiveOutputIsTheRun(c: Config, tr: seq<World>, acts: seq<Action>, known: bool, i: nat, j: nat, io: bool,
                           key: RunKey, ans: Answer)
    requires Lookup(c, tr, acts, known, i, j, io, key, ans)
    ensures ans.Live? ==> Micro(ans.run.startedAt) == key.start && tr[i].board.Tracks(key)
    ensures ans.Recorded? ==> ans.row.Key() == key && ans.row in tr[j].ever
    ensures StartIn(tr[i].handled, key) && ans.Gone? ==>
              && FinishIn(tr[i].handled, key)
              && (key in tr[j].lost ||
                  exists r :: r in tr[j].ever - tr[j].rows && r.Key() == key
                              && 0 < c.retention <= |Newer(tr[j].ever, r)|)
  {
    ReachableInv(c, tr, acts, i);
    ReachableInv(c, tr, acts, j);
    if StartIn(tr[i].handled, key) && ans.Gone? {
      ActiveIsExact(c, tr, acts, i, key);
      FinishedIsRecorded(c, tr, acts, i, j, key);
      if key !in tr[j].lost {
        var r :| r in tr[j].ever && r.Key() == key;
        assert r !in tr[j].rows;
      }
    }
  }

  /** Without failed writes and without a retention limit a started run is never gone. */
  lemma LiveOutputNeverGone(c: Config, tr: seq<World>, acts: seq<Action>, known: bool, i: nat, j: nat, io: bool,
                            key: RunKey, ans: Answer)
    requires Lookup(c, tr, acts, known, i, j, io, key, ans)
    requires StartIn(tr[i].handled, key) && tr[j].lost == {} && c.retention <= 0
    ensures !ans.Gone?
  {
    LiveOutputIsTheRun(c, tr, acts, known, i, j, io, key, ans);
  }

  /** A run whose write failed is gone as soon as it is no longer in progress. */
  lemma LostRunIsGone(c: Config, tr: seq<World>, acts: seq<Action>, i: nat, j: nat, key: RunKey, ans: Answer)
    requires Lookup(c, tr, acts, true, i, j, true, key, ans)
    requires key in tr[j].lost && !tr[i].board.Tracks(key)
    ensures ans == Gone
  {
    NoRowOfLost(c, tr, acts, j, key);
  }

  /** With no retention limit that is the only way for a started run of a known job to be gone. */
  lemma LiveOutputGoneIff(c: Config, tr: seq<World>, acts: seq<Action>, i: nat, j: nat, key: RunKey, ans: Answer)
    requires Lookup(c, tr, acts, true, i, j, true, key, ans)
    requires StartIn(tr[i].handled, key) && c.retention <= 0
    ensures ans == Gone <==> FinishIn(tr[i].handled, key) && key in tr[j].lost
  {
    ActiveIsExact(c, tr, acts, i, key);
    if ans == Gone {
      LiveOutputIsTheRun(c, tr, acts, true, i, j, true, key, ans);
    }
    if FinishIn(tr[i].handled, key) && key in tr[j].lost {
      LostRunIsGone(c, tr, acts, i, j, key, ans);
    }
  }

  /** A run of a known job is answered with its live view while it is in progress, started when it started; and after
      that, without a lost write or a retention limit, with its row. */
  lemma LiveOutputFinds(c: Config, tr: seq<World>, acts: seq<Action>, i: nat, j: nat, key: RunKey, ans: Answer)
    requires Lookup(c, tr, acts, true, i, j, true, key, ans) && StartIn(tr[i].handled, key)
    ensures tr[i].board.Tracks(key) ==> ans.Live? && Micro(ans.run.startedAt) == key.start
    ensures !tr[i].board.Tracks(key) && key !in tr[j].lost && c.retention <= 0 ==>
              ans.Recorded? && ans.row.job == key.job && Micro(ans.row.startedAt) == key.start
  {
    LiveOutputIsTheRun(c, tr, acts, true, i, j, true, key, ans);
    if c.retention <= 0 {
      LiveOutputGoneIff(c, tr, acts, i, j, key, ans);
    }
  }

  /** The inspector lists the 50 newest recorded runs of the job, or all there are, newest first. */
  lemma InspectorListsNewest(c: Config, tr: seq<World>, acts: seq<Action>, i: nat, j: nat, job: JobId,
                             act: seq<ActiveRun>, history: seq<Row>, r: Row, k: nat)
    requires Inspection(c, tr, acts, i, j, job, act, history)
    ensures var all := set x | x in tr[j].rows && x.job == job;
            && |history| == (if |all| < 50 then |all| else 50)
            && (k < |history| && r in all && r !in history ==> r.startedAt <= history[k].startedAt)
            && (forall x, y :: 0 <= x < y < |history| ==> history[x].startedAt >= history[y].startedAt)
  {
    assert (set x | x in tr[j].rows && x.job == job) == OfJob(tr[j].rows, job);
  }

  // ----- one run: why the inspector reads in that order, and what a failed write costs -----

  /** One run, start to finish, handled to the end, state by state; its write succeeds or fails. */
  ghost function OneRunAt(c: Config, start: Event, finish: Event, written: bool, now: Time, i: nat): World {
    var key := start.Key();
    var empty := Board(map[], map[]);
    var started := Apply(c.cron, empty, start, now);
    var rows := if i < 6 || !written then {} else {RowOf(c, 1, finish)};
    World(if i == 1 then [start] else if i == 4 then [finish] else [],
          if i == 2 then Updating(start) else if i == 5 then Recording(finish) else if i == 6 then Updating(finish)
          else Waiting,
          if i < 3 then empty else if i < 7 then started else Apply(c.cron, started, finish, now),
          rows, if i < 6 || !written then 1 else 2,
          if i == 0 then map[] else if i < 4 then map[key := Begun(true)] else map[key := Ended(true, true)],
          if i == 0 then [] else if i < 4 then [start] else [start, finish],
          if i < 3 then [] else if i < 7 then [start] else [start, finish],
          if i < 6 then [] else [finish],
          rows, if i < 6 || written then {} else {key})
  }

  ghost function OneRun(c: Config, start: Event, finish: Event, written: bool, now: Time): seq<World> {
    seq(8, i requires 0 <= i => OneRunAt(c, start, finish, written, now, i))
  }

  ghost function OneRunActions(start: Event, finish: Event, written: bool, now: Time): seq<Action> {
    [Begin(start), Receive, Update(now), End(finish), Receive, Record(written), Update(now)]
  }

  lemma OneRunStarts(c: Config, start: Event, finish: Event, written: bool, now: Time)
    requires start.kind == StartEvent
    ensures BeginStep(OneRunAt(c, start, finish, written, now, 0), start, OneRunAt(c, start, finish, written, now, 1))
  {
    var s := OneRunAt(c, start, finish, written, now, 0);
    assert s.queue + [start] == [start] && s.accepted + [start] == [start];
  }

  lemma OneRunFinishes(c: Config, start: Event, finish: Event, written: bool, now: Time)
    requires finish.Finished() && finish.Key() == start.Key()
    ensures EndStep(OneRunAt(c, start, finish, written, now, 3), finish, OneRunAt(c, start, finish, written, now, 4))
  {
    var s, key := OneRunAt(c, start, finish, written, now, 3), start.Key();
    assert s.queue + [finish] == [finish] && s.accepted + [finish] == [start, finish];
    assert s.runs[key := Ended(true, true)] == map[key := Ended(true, true)];
  }

  lemma OneRunIsTaken(c: Config, start: Event, finish: Event, written: bool, now: Time)
    requires start.kind == StartEvent && finish.Finished()
    ensures ReceiveStep(OneRunAt(c, start, finish, written, now, 1), OneRunAt(c, start, finish, written, now, 2))
    ensures ReceiveStep(OneRunAt(c, start, finish, written, now, 4), OneRunAt(c, start, finish, written, now, 5))
  {
  }

  lemma OneRunIsRecorded(c: Config, start: Event, finish: Event, written: bool, now: Time)
    requires c.retention <= 0 && finish.Key() == start.Key()
    ensures RecordStep(c, OneRunAt(c, start, finish, written, now, 5), written,
                       OneRunAt(c, start, finish, written, now, 6))
  {
  }

  lemma OneRunIsHandled(c: Config, start: Event, finish: Event, written: bool, now: Time)
    ensures UpdateStep(c, OneRunAt(c, start, finish, written, now, 2), now,
                       OneRunAt(c, start, finish, written, now, 3))
    ensures UpdateStep(c, OneRunAt(c, start, finish, written, now, 6), now,
                       OneRunAt(c, start, finish, written, now, 7))
  {
  }

  lemma OneRunNext(c: Config, start: Event, finish: Event, written: bool, now: Time, i: nat)
    requires c.retention <= 0 && start.kind == StartEvent && finish.Finished() && finish.Key() == start.Key() && i < 7
    ensures Next(c, OneRunAt(c, start, finish, written, now, i), OneRunActions(start, finish, written, now)[i],
                 OneRunAt(c, start, finish, written, now, i + 1))
  {
    if i == 0 {
      OneRunStarts(c, start, finish, written, now);
    } else if i == 3 {
      OneRunFinishes(c, start, finish, written, now);
    } else if i == 5 {
      OneRunIsRecorded(c, start, finish, written, now);
    } else if i == 2 || i == 6 {
      OneRunIsHandled(c, start, finish, written, now);
    } else {
      OneRunIsTaken(c, start, finish, written, now);
    }
  }

  lemma OneRunExecutes(c: Config, start: Event, finish: Event, written: bool, now: Time)
    requires c.retention <= 0 && start.kind == StartEvent && finish.Finished() && finish.Key() == start.Key()
    ensures Execution(c, OneRun(c, start, finish, written, now), OneRunActions(start, finish, written, now))
  {
    var tr, acts := OneRun(c, start, finish, written, now), OneRunActions(start, finish, written, now);
    forall i | 0 <= i < |acts| ensures Next(c, tr[i], acts[i], tr[i + 1]) {
      OneRunNext(c, start, finish, written, now, i);
    }
  }

  /** Nothing of the job is in progress once its one run was handled. */
  lemma OneRunLeavesNothing(c: Config, start: Event, finish: Event, written: bool, now: Time)
    requires start.kind == StartEvent && finish.Finished() && finish.Key() == start.Key()
    ensures Listing(OneRunAt(c, start, finish, written, now, 7).board, start.Key().job, [])
  {
    var empty := Board(map[], map[]);
    forall k ensures !OneRunAt(c, start, finish, written, now, 7).board.Tracks(RunKey(start.Key().job, k)) {
      ApplyTracks(c.cron, Apply(c.cron, empty, start, now), finish, now, RunKey(start.Key().job, k));
      ApplyTracks(c.cron, empty, start, now, RunKey(start.Key().job, k));
    }
  }

  /** Had it read history first, a started run that finishes in between would be in neither read, with no write lost
      and no retention limit. */
  lemma ReversedReadsLoseTheRun(c: Config, start: Event, finish: Event, now: Time)
    returns (tr: seq<World>, acts: seq<Action>, i: nat, j: nat)
    requires c.retention <= 0 && start.kind == StartEvent && finish.Finished() && finish.Key() == start.Key()
    ensures Execution(c, tr, acts) && i <= j < |tr|
    ensures StartIn(tr[i].handled, start.Key()) && tr[j].lost == {}
    ensures Selection(tr[i].rows, start.Key().job, INSPECTOR_RUNS, [])
    ensures Listing(tr[j].board, start.Key().job, [])
    ensures start.Key().start !in Shown([], [])
  {
    OneRunExecutes(c, start, finish, true, now);
    OneRunLeavesNothing(c, start, finish, true, now);
    tr, acts, i, j := OneRun(c, start, finish, true, now), OneRunActions(start, finish, true, now), 3, 7;
    assert OfJob(tr[3].rows, start.Key().job) == {};
    assert start in tr[3].handled;
  }

  /** A write that fails costs the run: there is an execution in which a run was started and handled, and neither page
      finds it any more, whichever way round they read. */
  lemma FailedWriteLosesTheRun(c: Config, start: Event, finish: Event, now: Time)
    returns (tr: seq<World>, acts: seq<Action>, i: nat)
    requires c.retention <= 0 && start.kind == StartEvent && finish.Finished() && finish.Key() == start.Key()
    ensures Inspection(c, tr, acts, i, i, start.Key().job, [], [])
    ensures Lookup(c, tr, acts, true, i, i, true, start.Key(), Gone)
    ensures StartIn(tr[i].handled, start.Key()) && FinishIn(tr[i].handled, start.Key())
    ensures start.Key() in tr[i].lost && start.Key().start !in Shown([], [])
  {
    OneRunExecutes(c, start, finish, false, now);
    OneRunLeavesNothing(c, start, finish, false, now);
    tr, acts, i := OneRun(c, start, finish, false, now), OneRunActions(start, finish, false, now), 7;
    assert OfJob(tr[7].rows, start.Key().job) == {};
    assert start in tr[7].handled && finish in tr[7].handled;
    ActiveIsExact(c, tr, acts, 7, start.Key());
  }
}
