/** Run tracking as a protocol: scheduler goroutines, one event consumer, crontab syncs and toggles interleave
    freely; every action below is one atomic step. Readers change nothing, so a reader that reads twice is simply
    two positions in a run of this machine. */
module Protocol {
  import opened Domain
  import opened JobTable
  import opened RunBoard
  import opened Executions

  const EVENT_CAPACITY := 1000

  /** The schedule parser, whether output is stored, and how many executions to keep per job (0 or less: all). */
  datatype Config = Config(cron: Cron, keepOutput: bool, retention: int)

  /** The consumer between events, or inside one: about to record it, to prune, or to update the memory. */
  datatype Consumer = Waiting | Recording(e: Event) | Pruning(e: Event) | Updating(e: Event)

  /** A run as its scheduler goroutine knows it, with whether the channel took its events. */
  datatype Phase = Begun(startAccepted: bool) | Ended(startAccepted: bool, finishAccepted: bool)

  /** The fields from accepted on are history: they record what happened and no step depends on them. */
  datatype World = World(queue: seq<Event>, consumer: Consumer, board: Board, rows: set<Row>, nextId: int,
                         runs: map<RunKey, Phase>,
                         accepted: seq<Event>, handled: seq<Event>, recorded: seq<Event>,
                         ever: set<Row>, lost: set<RunKey>)

  datatype Action =
    | Begin(e: Event)
    | End(e: Event)
    | Receive
    | Record(ok: bool)
    | Prune(ok: bool)
    | Update(now: Time)
    | Sync(specs: seq<Spec>, clock: Clock)
    | Toggle(id: JobId, at: Time)

  ghost predicate HasRow(rows: set<Row>, key: RunKey) {
    exists r :: r in rows && r.Key() == key
  }

  function RowOf(c: Config, id: int, e: Event): Row {
    Row(id, HashCommand(e.command), e.startedAt, e.finishedAt, e.RunStatus(), e.exitCode, e.executed,
        if c.keepOutput then e.output else "")
  }

  predicate HasRoom(s: World) {
    |s.queue| < EVENT_CAPACITY
  }

  /** A send that never blocks: a full channel drops the event. The run's goroutine moves on either way. */
  ghost predicate Offer(s: World, e: Event, phase: Phase, s': World) {
    var sent := s.(runs := s.runs[e.Key() := phase]);
    s' == if HasRoom(s) then sent.(queue := s.queue + [e], accepted := s.accepted + [e]) else sent
  }

  /** A run starts; starts are distinct per job at microsecond grain. */
  ghost predicate BeginStep(s: World, e: Event, s': World) {
    && e.kind == StartEvent && e.Key() !in s.runs && !HasRow(s.ever, e.Key())
    && Offer(s, e, Begun(HasRoom(s)), s')
  }

  ghost predicate EndStep(s: World, e: Event, s': World) {
    && e.Finished() && e.Key() in s.runs && s.runs[e.Key()].Begun?
    && Offer(s, e, Ended(s.runs[e.Key()].startAccepted, HasRoom(s)), s')
  }

  ghost predicate ReceiveStep(s: World, s': World) {
    && s.consumer.Waiting? && s.queue != []
    && s' == s.(queue := s.queue[1..],
                consumer := if s.queue[0].Finished() then Recording(s.queue[0]) else Updating(s.queue[0]))
  }

  /** The first of a finish's three steps: the row is written, or the write fails and is only logged. */
  ghost predicate RecordStep(c: Config, s: World, ok: bool, s': World) {
    && s.consumer.Recording?
    && var e := s.consumer.e;
       var next := s.(recorded := s.recorded + [e],
                      consumer := if c.retention > 0 then Pruning(e) else Updating(e));
       var row := RowOf(c, s.nextId, e);
       s' == if ok then next.(rows := s.rows + {row}, nextId := s.nextId + 1, ever := s.ever + {row})
             else next.(lost := s.lost + {e.Key()})
  }

  /** The second: old rows of the job are deleted, or the delete fails and is only logged. */
  ghost predicate PruneStep(c: Config, s: World, ok: bool, s': World) {
    && s.consumer.Pruning? && c.retention > 0
    && (if ok then Pruned(s.rows, HashCommand(s.consumer.e.command), c.retention, s'.rows) else s'.rows == s.rows)
    && s' == s.(rows := s'.rows, consumer := Updating(s.consumer.e))
  }

  /** The third, and the only one of a start: under the lock, the memory takes the event in. */
  ghost predicate UpdateStep(c: Config, s: World, now: Time, s': World) {
    && s.consumer.Updating?
    && s' == s.(board := Apply(c.cron, s.board, s.consumer.e, now), handled := s.handled + [s.consumer.e],
                consumer := Waiting)
  }

  ghost predicate SyncStep(c: Config, s: World, specs: seq<Spec>, clock: Clock, s': World) {
    && Synced(c.cron, s.board.jobs, specs, clock, s'.board.jobs)
    && s' == s.(board := s.board.(jobs := s'.board.jobs))
  }

  ghost predicate ToggleStep(s: World, id: JobId, at: Time, s': World) {
    && id in s.board.jobs
    && s' == s.(board := s.board.(jobs := s.board.jobs[id := Toggled(s.board.jobs[id], at)]))
  }

  ghost predicate Next(c: Config, s: World, a: Action, s': World) {
    match a
    case Begin(e) => BeginStep(s, e, s')
    case End(e) => EndStep(s, e, s')
    case Receive => ReceiveStep(s, s')
    case Record(ok) => RecordStep(c, s, ok, s')
    case Prune(ok) => PruneStep(c, s, ok, s')
    case Update(now) => UpdateStep(c, s, now, s')
    case Sync(specs, clock) => SyncStep(c, s, specs, clock, s')
    case Toggle(id, at) => ToggleStep(s, id, at, s')
  }

  /** A fresh process: any table of past executions, any job table loaded from disk, nothing in progress. */
  ghost predicate Init(s: World) {
    && s.queue == [] && s.consumer == Waiting && s.board.active == map[] && s.runs == map[]
    && (forall id :: id in s.board.jobs ==> !s.board.jobs[id].isRunning)
    && s.ever == s.rows && DistinctStarts(s.rows) && s.lost == {}
    && s.accepted == [] && s.handled == [] && s.recorded == []
  }

  ghost predicate Steps(c: Config, tr: seq<World>, acts: seq<Action>) {
    |tr| == |acts| + 1 && forall i :: 0 <= i < |acts| ==> Next(c, tr[i], acts[i], tr[i + 1])
  }

  ghost predicate Execution(c: Config, tr: seq<World>, acts: seq<Action>) {
    Steps(c, tr, acts) && Init(tr[0])
  }

  // ----- what the history says about one run -----

  function With(signals: seq<bool>, e: Event, key: RunKey): seq<bool> {
    if e.Key() == key then signals + [e.kind == StartEvent] else signals
  }

  /** The events of one run in order: true for a start, false for a finish. */
  ghost function Signals(evs: seq<Event>, key: RunKey): seq<bool> {
    if evs == [] then [] else With(Signals(evs[..|evs| - 1], key), evs[|evs| - 1], key)
  }

  lemma {:induction false} SignalsAppend(evs: seq<Event>, e: Event, key: RunKey)
    ensures Signals(evs + [e], key) == With(Signals(evs, key), e, key)
  {
    assert (evs + [e])[..|evs|] == evs;
  }

  lemma {:induction false} SignalsConcat(a: seq<Event>, b: seq<Event>, key: RunKey)
    ensures Signals(a + b, key) == Signals(a, key) + Signals(b, key)
  {
    if b == [] {
      assert a + b == a;
    } else {
      var init, e := b[..|b| - 1], b[|b| - 1];
      assert a + b == (a + init) + [e] && b == init + [e];
      SignalsConcat(a, init, key);
      SignalsAppend(a + init, e, key);
      SignalsAppend(init, e, key);
    }
  }

  predicate LastIsStart(signals: seq<bool>) {
    signals != [] && signals[|signals| - 1]
  }

  ghost predicate StartIn(evs: seq<Event>, key: RunKey) {
    exists e :: e in evs && e.kind == StartEvent && e.Key() == key
  }

  ghost predicate FinishIn(evs: seq<Event>, key: RunKey) {
    exists e :: e in evs && e.Finished() && e.Key() == key
  }

  lemma {:induction false} SignalsSay(evs: seq<Event>, key: RunKey)
    ensures true in Signals(evs, key) <==> StartIn(evs, key)
    ensures false in Signals(evs, key) <==> FinishIn(evs, key)
  {
    if evs != [] {
      var init, e := evs[..|evs| - 1], evs[|evs| - 1];
      assert evs == init + [e];
      SignalsSay(init, key);
      SignalsAppend(init, e, key);
      assert forall x :: x in evs <==> x in init || x == e;
    }
  }

  function WithFinish(finishes: seq<Event>, e: Event): seq<Event> {
    if e.Finished() then finishes + [e] else finishes
  }

  ghost function Finishes(evs: seq<Event>): seq<Event> {
    if evs == [] then [] else WithFinish(Finishes(evs[..|evs| - 1]), evs[|evs| - 1])
  }

  lemma {:induction false} FinishesAppend(evs: seq<Event>, e: Event)
    ensures Finishes(evs + [e]) == WithFinish(Finishes(evs), e)
  {
    assert (evs + [e])[..|evs|] == evs;
  }

  lemma {:induction false} FinishesHold(evs: seq<Event>, e: Event)
    ensures e in Finishes(evs) <==> e in evs && e.Finished()
  {
    if evs != [] {
      assert evs == evs[..|evs| - 1] + [evs[|evs| - 1]];
      FinishesHold(evs[..|evs| - 1], e);
    }
  }

  // ----- the invariant -----

  ghost function InFlight(s: World): seq<Event> {
    if s.consumer.Waiting? then [] else [s.consumer.e]
  }

  /** What the channel has seen of a run: its start if that was taken, then its finish if that was. */
  ghost function Expected(s: World, key: RunKey): seq<bool> {
    if key !in s.runs then []
    else match s.runs[key]
      case Begun(a) => if a then [true] else []
      case Ended(a, f) => if a && f then [true, false] else if a then [true] else if f then [false] else []
  }

  /** Nothing is lost or reordered between the channel and the memory. */
  ghost predicate InOrder(s: World) {
    s.accepted == s.handled + InFlight(s) + s.queue
  }

  /** No run reports more, or in another order, than its goroutine sent. */
  ghost predicate AsSent(s: World) {
    forall key :: Signals(s.accepted, key) == Expected(s, key)
  }

  ghost predicate QueueInv(s: World) {
    InOrder(s) && AsSent(s)
  }

  /** Every finish taken off the channel is recorded once, in order, before the memory forgets the run. */
  ghost predicate RecordInv(s: World) {
    && (s.consumer.Recording? || s.consumer.Pruning? ==> s.consumer.e.Finished())
    && s.recorded == if s.consumer.Pruning? || s.consumer.Updating? then WithFinish(Finishes(s.handled), s.consumer.e)
                     else Finishes(s.handled)
  }

  ghost predicate TrackInv(s: World) {
    forall key :: s.board.Tracks(key) <==> LastIsStart(Signals(s.handled, key))
  }

  ghost predicate RowInv(c: Config, s: World) {
    && (if c.retention > 0 then Retains(s.ever, s.rows, c.retention) else s.rows == s.ever && DistinctStarts(s.ever))
    && (forall e :: e in s.recorded ==> e.Key() in s.lost || HasRow(s.ever, e.Key()))
    && (forall r :: r in s.ever && r.Key() in s.runs ==> FinishIn(s.recorded, r.Key()))
  }

  /** A run whose write failed was recorded in vain: it has no row, and never had one. */
  ghost predicate LostInv(s: World) {
    forall key :: key in s.lost ==> FinishIn(s.recorded, key) && !HasRow(s.ever, key)
  }

  ghost predicate Inv(c: Config, s: World) {
    QueueInv(s) && RecordInv(s) && TrackInv(s) && RowInv(c, s) && LostInv(s) && Consistent(s.board)
  }

  lemma OneFinishExpected(s: World, key: RunKey, before: seq<bool>, after: seq<bool>)
    requires Expected(s, key) == before + [false] + after
    ensures key in s.runs && false !in before
  {
    assert Expected(s, key)[|before|] == false;
    forall i | 0 <= i < |before| ensures before[i] {
      assert Expected(s, key)[i] == before[i];
    }
  }

  /** A run whose finish is in the consumer's hands has none behind it. */
  lemma NoEarlierFinish(s: World)
    requires QueueInv(s) && !s.consumer.Waiting? && s.consumer.e.Finished()
    ensures s.consumer.e.Key() in s.runs && !FinishIn(s.handled, s.consumer.e.Key())
  {
    var e := s.consumer.e;
    var key := e.Key();
    SignalsConcat(s.handled + [e], s.queue, key);
    SignalsAppend(s.handled, e, key);
    SignalsSay(s.handled, key);
    OneFinishExpected(s, key, Signals(s.handled, key), Signals(s.queue, key));
  }

  lemma NextKeepsOrder(c: Config, s: World, a: Action, s': World)
    requires InOrder(s) && Next(c, s, a, s')
    ensures InOrder(s')
  {
  }

  lemma OfferKeepsSentOf(s: World, e: Event, phase: Phase, s': World, key: RunKey)
    requires Signals(s.accepted, key) == Expected(s, key) && Offer(s, e, phase, s')
    requires Expected(s', e.Key()) == if HasRoom(s) then Expected(s, e.Key()) + [e.kind == StartEvent]
                                      else Expected(s, e.Key())
    ensures Signals(s'.accepted, key) == Expected(s', key)
  {
    SignalsAppend(s.accepted, e, key);
    assert key != e.Key() ==> Expected(s', key) == Expected(s, key);
  }

  lemma BeginKeepsSentOf(s: World, e: Event, s': World, key: RunKey)
    requires Signals(s.accepted, key) == Expected(s, key) && BeginStep(s, e, s')
    ensures Signals(s'.accepted, key) == Expected(s', key)
  {
    OfferKeepsSentOf(s, e, Begun(HasRoom(s)), s', key);
  }

  lemma EndKeepsSentOf(s: World, e: Event, s': World, key: RunKey)
    requires Signals(s.accepted, key) == Expected(s, key) && EndStep(s, e, s')
    ensures Signals(s'.accepted, key) == Expected(s', key)
  {
    OfferKeepsSentOf(s, e, Ended(s.runs[e.Key()].startAccepted, HasRoom(s)), s', key);
  }

  lemma OthersSendNothing(c: Config, s: World, a: Action, s': World)
    requires Next(c, s, a, s') && !a.Begin? && !a.End?
    ensures s'.accepted == s.accepted && s'.runs == s.runs
  {
  }

  lemma NextKeepsSent(c: Config, s: World, a: Action, s': World)
    requires AsSent(s) && Next(c, s, a, s')
    ensures AsSent(s')
  {
    forall key ensures Signals(s'.accepted, key) == Expected(s', key) {
      match a
      case Begin(e) => BeginKeepsSentOf(s, e, s', key);
      case End(e) => EndKeepsSentOf(s, e, s', key);
      case _ =>
        OthersSendNothing(c, s, a, s');
        assert Expected(s', key) == Expected(s, key);
    }
  }

  lemma UpdateKeepsRecords(c: Config, s: World, now: Time, s': World)
    requires RecordInv(s) && UpdateStep(c, s, now, s')
    ensures RecordInv(s')
  {
    FinishesAppend(s.handled, s.consumer.e);
  }

  lemma NextKeepsRecords(c: Config, s: World, a: Action, s': World)
    requires RecordInv(s) && Next(c, s, a, s')
    ensures RecordInv(s')
  {
    match a
    case Update(now) => UpdateKeepsRecords(c, s, now, s');
    case _ => assert s'.handled == s.handled;
  }

  lemma UpdateKeepsTracking(c: Config, s: World, now: Time, s': World, key: RunKey)
    requires s.board.Tracks(key) <==> LastIsStart(Signals(s.handled, key))
    requires UpdateStep(c, s, now, s')
    ensures s'.board.Tracks(key) <==> LastIsStart(Signals(s'.handled, key))
  {
    ApplyTracks(c.cron, s.board, s.consumer.e, now, key);
    SignalsAppend(s.handled, s.consumer.e, key);
  }

  lemma OthersTrackNothing(c: Config, s: World, a: Action, s': World)
    requires Next(c, s, a, s') && !a.Update?
    ensures s'.handled == s.handled && s'.board.active == s.board.active
  {
  }

  lemma NextKeepsTracking(c: Config, s: World, a: Action, s': World)
    requires TrackInv(s) && Next(c, s, a, s')
    ensures TrackInv(s')
  {
    forall key ensures s'.board.Tracks(key) <==> LastIsStart(Signals(s'.handled, key)) {
      match a
      case Update(now) => UpdateKeepsTracking(c, s, now, s', key);
      case _ => OthersTrackNothing(c, s, a, s');
    }
  }

  /** A run about to be recorded has not been recorded before, with or without success. */
  lemma NotYetRecorded(c: Config, s: World)
    requires QueueInv(s) && RecordInv(s) && RowInv(c, s) && s.consumer.Recording?
    ensures var key := s.consumer.e.Key(); !FinishIn(s.recorded, key) && !HasRow(s.ever, key)
  {
    var key := s.consumer.e.Key();
    NoEarlierFinish(s);
    forall f | f in s.recorded && f.Finished() ensures f.Key() != key {
      FinishesHold(s.handled, f);
    }
  }

  lemma RecordKeepsRows(c: Config, s: World, ok: bool, s': World)
    requires QueueInv(s) && RecordInv(s) && RowInv(c, s) && Next(c, s, Record(ok), s')
    ensures RowInv(c, s')
  {
    var e := s.consumer.e;
    NotYetRecorded(c, s);
    var row := RowOf(c, s.nextId, e);
    if ok {
      if c.retention > 0 {
        InsertRetains(s.ever, s.rows, c.retention, row);
      }
      forall k | HasRow(s.ever, k) ensures HasRow(s'.ever, k) {}
      assert row in s'.ever && row.Key() == e.Key();
    }
    assert e in s'.recorded;
    forall k | FinishIn(s.recorded, k) ensures FinishIn(s'.recorded, k) {
      var f :| f in s.recorded && f.Finished() && f.Key() == k;
      assert f in s'.recorded;
    }
  }

  lemma RecordKeepsLost(c: Config, s: World, ok: bool, s': World)
    requires QueueInv(s) && RecordInv(s) && RowInv(c, s) && LostInv(s) && RecordStep(c, s, ok, s')
    ensures LostInv(s')
  {
    var e := s.consumer.e;
    NotYetRecorded(c, s);
    assert e in s'.recorded;
    forall key | key in s'.lost ensures FinishIn(s'.recorded, key) && !HasRow(s'.ever, key) {
      if key in s.lost {
        var f :| f in s.recorded && f.Finished() && f.Key() == key;
        assert f in s'.recorded && key != e.Key();
      }
    }
  }

  lemma NextKeepsLost(c: Config, s: World, a: Action, s': World)
    requires QueueInv(s) && RecordInv(s) && RowInv(c, s) && LostInv(s) && Next(c, s, a, s')
    ensures LostInv(s')
  {
    if a.Record? {
      RecordKeepsLost(c, s, a.ok, s');
    } else {
      assert s'.lost == s.lost && s'.recorded == s.recorded && s'.ever == s.ever;
    }
  }

  lemma NextKeepsRows(c: Config, s: World, a: Action, s': World)
    requires QueueInv(s) && RecordInv(s) && RowInv(c, s) && Next(c, s, a, s')
    ensures RowInv(c, s')
  {
    if a.Record? {
      RecordKeepsRows(c, s, a.ok, s');
    } else if a.Prune? && a.ok {
      PruneRetains(s.ever, s.rows, HashCommand(s.consumer.e.command), c.retention, s'.rows);
    }
  }

  lemma NextKeepsBoard(c: Config, s: World, a: Action, s': World)
    requires Consistent(s.board) && Next(c, s, a, s')
    ensures Consistent(s'.board)
    ensures StatusesAgree(s.board.jobs) ==> StatusesAgree(s'.board.jobs)
  {
    match a
    case Update(now) => ApplyKeepsConsistent(c.cron, s.board, s.consumer.e, now);
    case Sync(specs, clock) => SyncKeepsConsistent(c.cron, s.board, specs, clock, s'.board.jobs);
    case _ =>
  }

  lemma NextKeepsInv(c: Config, s: World, a: Action, s': World)
    requires Inv(c, s) && Next(c, s, a, s')
    ensures Inv(c, s')
  {
    NextKeepsOrder(c, s, a, s');
    NextKeepsSent(c, s, a, s');
    NextKeepsRecords(c, s, a, s');
    NextKeepsTracking(c, s, a, s');
    NextKeepsRows(c, s, a, s');
    NextKeepsLost(c, s, a, s');
    NextKeepsBoard(c, s, a, s');
  }

  /** Every reachable state satisfies the invariant. */
  lemma {:induction false} ReachableInv(c: Config, tr: seq<World>, acts: seq<Action>, i: nat)
    requires Execution(c, tr, acts) && i < |tr|
    ensures Inv(c, tr[i])
  {
    if i == 0 {
      assert c.retention > 0 ==> Retains(tr[0].ever, tr[0].rows, c.retention);
    } else {
      ReachableInv(c, tr, acts, i - 1);
      NextKeepsInv(c, tr[i - 1], acts[i - 1], tr[i]);
    }
  }

  /** If no job was loaded with the running status, the status column and the running flag agree for ever. */
  lemma {:induction false} StatusesAgreeThroughout(c: Config, tr: seq<World>, acts: seq<Action>, i: nat)
    requires Execution(c, tr, acts) && i < |tr| && StatusesAgree(tr[0].board.jobs)
    ensures StatusesAgree(tr[i].board.jobs)
  {
    if i > 0 {
      StatusesAgreeThroughout(c, tr, acts, i - 1);
      ReachableInv(c, tr, acts, i - 1);
      NextKeepsBoard(c, tr[i - 1], acts[i - 1], tr[i]);
    }
  }

  /** A sync that brings back a job which was dropped while it was running. */
  ghost predicate Relists(c: Config, s: World, a: Action) {
    a.Sync? && exists id :: Listed(c.cron, a.specs, |a.specs|, id) && id in s.board.active && id !in s.board.jobs
  }

  lemma NextKeepsFlagsIff(c: Config, s: World, a: Action, s': World)
    requires FlagsFollowRuns(s.board) && Next(c, s, a, s')
    ensures FlagsFollowRuns(s'.board) <==> !Relists(c, s, a)
  {
    match a
    case Update(now) => ApplyKeepsFlags(c.cron, s.board, s.consumer.e, now);
    case Sync(specs, clock) =>
      SyncKeepsFlagsIff(c.cron, s.board, specs, clock, s'.board.jobs);
      assert s'.board == s.board.(jobs := s'.board.jobs);
    case _ =>
  }

  /** Exactly when every job is shown running just while it has runs in progress, in all states up to the i-th: when
      no sync before that has brought back a job which was dropped while running. */
  lemma {:induction false} FlagsFollowRunsIff(c: Config, tr: seq<World>, acts: seq<Action>, i: nat)
    requires Execution(c, tr, acts) && i < |tr|
    ensures (forall k :: 0 <= k <= i ==> FlagsFollowRuns(tr[k].board)) <==>
            forall k :: 0 <= k < i ==> !Relists(c, tr[k], acts[k])
  {
    if i > 0 {
      FlagsFollowRunsIff(c, tr, acts, i - 1);
      if FlagsFollowRuns(tr[i - 1].board) {
        NextKeepsFlagsIff(c, tr[i - 1], acts[i - 1], tr[i]);
      }
    }
  }

  /** While a job's entry exists its last run never moves back, whatever is interleaved. */
  lemma {:induction false} LastRunNeverDecreases(c: Config, tr: seq<World>, acts: seq<Action>, i: nat, j: nat,
                                                 id: JobId)
    requires Execution(c, tr, acts) && i <= j < |tr|
    requires forall k :: i <= k <= j ==> id in tr[k].board.jobs
    ensures tr[i].board.jobs[id].lastRun <= tr[j].board.jobs[id].lastRun
    decreases j - i
  {
    if i < j {
      var s, a, s' := tr[j - 1], acts[j - 1], tr[j];
      LastRunNeverDecreases(c, tr, acts, i, j - 1, id);
      assert Next(c, s, a, s');
      match a
      case Update(now) => ApplyKeepsHistory(c.cron, s.board, s.consumer.e, now, id);
      case Sync(specs, clock) => SyncKeepsRunState(c.cron, s.board.jobs, specs, clock, s'.board.jobs, id);
      case _ =>
    }
  }

  // ----- what the runs in progress are -----

  /** In every reachable state the runs in progress are exactly those whose start was handled and whose finish was
      not. */
  lemma ActiveIsExact(c: Config, tr: seq<World>, acts: seq<Action>, i: nat, key: RunKey)
    requires Execution(c, tr, acts) && i < |tr|
    ensures tr[i].board.Tracks(key) <==> StartIn(tr[i].handled, key) && !FinishIn(tr[i].handled, key)
  {
    ReachableInv(c, tr, acts, i);
    var s := tr[i];
    SignalsConcat(s.handled + InFlight(s), s.queue, key);
    SignalsConcat(s.handled, InFlight(s), key);
    SignalsSay(s.handled, key);
    var seen := Signals(s.handled, key);
    assert seen <= Expected(s, key);
  }

  /** Once the channel is drained, a run that ended is still shown in progress exactly when its start was taken and
      its finish was dropped; and the recorded executions are exactly the accepted finishes, once each, in order. */
  lemma QuiescentActive(c: Config, tr: seq<World>, acts: seq<Action>, i: nat)
    requires Execution(c, tr, acts) && i < |tr|
    requires tr[i].queue == [] && tr[i].consumer.Waiting?
    ensures tr[i].recorded == Finishes(tr[i].accepted)
    ensures forall key :: tr[i].board.Tracks(key) <==>
                          key in tr[i].runs && (tr[i].runs[key] == Begun(true) || tr[i].runs[key] == Ended(true, false))
  {
    ReachableInv(c, tr, acts, i);
    var s := tr[i];
    assert s.handled + [] + [] == s.handled;
    forall key ensures Signals(s.handled, key) == Expected(s, key) {}
  }

  // ----- what only grows -----

  ghost predicate Grows(s: World, s': World) {
    s.handled <= s'.handled && s.recorded <= s'.recorded && s.ever <= s'.ever && s.lost <= s'.lost
  }

  lemma NextGrows(c: Config, s: World, a: Action, s': World)
    requires Next(c, s, a, s')
    ensures Grows(s, s')
  {
    match a
    case Record(ok) => assert s'.recorded == s.recorded + [s.consumer.e];
    case Update(now) => assert s'.handled == s.handled + [s.consumer.e];
    case _ =>
  }

  lemma GrowsFurther(s: World, m: World, s': World)
    requires Grows(s, m) && Grows(m, s')
    ensures Grows(s, s')
  {
  }

  lemma {:induction false} HistoryGrows(c: Config, tr: seq<World>, acts: seq<Action>, i: nat, j: nat)
    requires Execution(c, tr, acts) && i <= j < |tr|
    ensures Grows(tr[i], tr[j])
    decreases j - i
  {
    if i < j {
      HistoryGrows(c, tr, acts, i, j - 1);
      NextGrows(c, tr[j - 1], acts[j - 1], tr[j]);
      GrowsFurther(tr[i], tr[j - 1], tr[j]);
    }
  }

  /** A run that was started and is no longer in progress has been recorded, unless the write failed. */
  lemma FinishedIsRecorded(c: Config, tr: seq<World>, acts: seq<Action>, i: nat, j: nat, key: RunKey)
    requires Execution(c, tr, acts) && i <= j < |tr|
    requires StartIn(tr[i].handled, key) && !tr[i].board.Tracks(key)
    ensures key in tr[j].lost || HasRow(tr[j].ever, key)
  {
    ActiveIsExact(c, tr, acts, i, key);
    ReachableInv(c, tr, acts, i);
    HistoryGrows(c, tr, acts, i, j);
    var e :| e in tr[i].handled && e.Finished() && e.Key() == key;
    FinishesHold(tr[i].handled, e);
    assert e in tr[i].recorded;
    if HasRow(tr[i].ever, key) {
      var r :| r in tr[i].ever && r.Key() == key;
      assert r in tr[j].ever;
    }
  }

  /** The row says what its finish event said. */
  ghost predicate Told(c: Config, s: World, r: Row) {
    exists e :: e in s.recorded && r == RowOf(c, r.id, e)
  }

  lemma NextKeepsTold(c: Config, s: World, a: Action, s': World, r: Row)
    requires Next(c, s, a, s')
    requires r in s.ever && r.Key() in s.runs ==> Told(c, s, r)
    ensures r in s'.ever && r.Key() in s'.runs ==> Told(c, s', r)
  {
    match a
    case Begin(e) => assert r in s.ever ==> r.Key() != e.Key();
    case Record(ok) => assert s'.recorded == s.recorded + [s.consumer.e];
    case _ => assert s'.recorded == s.recorded && s'.ever == s.ever;
  }

  lemma {:induction false} RowsAreTold(c: Config, tr: seq<World>, acts: seq<Action>, i: nat, r: Row)
    requires Execution(c, tr, acts) && i < |tr|
    ensures r in tr[i].ever && r.Key() in tr[i].runs ==> Told(c, tr[i], r)
  {
    if i > 0 {
      RowsAreTold(c, tr, acts, i - 1, r);
      NextKeepsTold(c, tr[i - 1], acts[i - 1], tr[i], r);
    }
  }

  /** Every row of a run that this process started, kept or pruned by now, says what a recorded finish event said:
      whose run, start, end, result, exit code, command and, when storing is on, output. */
  lemma RowsTellEvents(c: Config, tr: seq<World>, acts: seq<Action>, i: nat, r: Row) returns (e: Event)
    requires Execution(c, tr, acts) && i < |tr| && r in tr[i].ever && r.Key() in tr[i].runs
    ensures e in tr[i].recorded && (e.kind == CompletedEvent || e.kind == FailedEvent)
    ensures r.job == HashCommand(e.command) && r.startedAt == e.startedAt && r.finishedAt == e.finishedAt
    ensures r.status == Success <==> e.kind == CompletedEvent
    ensures r.status == Failed <==> e.kind == FailedEvent
    ensures r.exitCode == e.exitCode && r.executed == e.executed
    ensures r.output == if c.keepOutput then e.output else ""
  {
    RowsAreTold(c, tr, acts, i, r);
    ReachableInv(c, tr, acts, i);
    e :| e in tr[i].recorded && r == RowOf(c, r.id, e);
    RecordedAreFinishes(tr[i], e);
  }

  lemma RecordedAreFinishes(s: World, e: Event)
    requires RecordInv(s) && e in s.recorded
    ensures e.Finished()
  {
    FinishesHold(s.handled, e);
  }

  // ----- the bounds -----

  /** A thousand events can wait; an event is dropped only when that many do. */
  lemma {:induction false} QueueIsBounded(c: Config, tr: seq<World>, acts: seq<Action>, i: nat)
    requires Execution(c, tr, acts) && i < |tr|
    ensures |tr[i].queue| <= 1000
    ensures i < |acts| && (acts[i].Begin? || acts[i].End?) ==>
              tr[i + 1].queue == if |tr[i].queue| < 1000 then tr[i].queue + [acts[i].e] else tr[i].queue
  {
    if i > 0 {
      QueueIsBounded(c, tr, acts, i - 1);
      assert Next(c, tr[i - 1], acts[i - 1], tr[i]);
    }
    if i < |acts| {
      assert Next(c, tr[i], acts[i], tr[i + 1]);
    }
  }

  ghost predicate FinishOfJob(evs: seq<Event>, job: JobId) {
    exists e :: e in evs && HashCommand(e.command) == job
  }

  /** A job whose finishes have been recorded holds its newest rows and no more, but for the moment between recording
      one and pruning. */
  ghost predicate Trimmed(c: Config, s: World, job: JobId)
    requires c.retention > 0
  {
    FinishOfJob(s.recorded, job) && !(s.consumer.Pruning? && HashCommand(s.consumer.e.command) == job) ==>
      OfJob(s.rows, job) == Newest(s.ever, job, c.retention)
  }

  lemma RecordKeepsTrimmed(c: Config, s: World, ok: bool, s': World, job: JobId)
    requires c.retention > 0 && Trimmed(c, s, job) && RecordStep(c, s, ok, s')
    requires s.consumer.e.Finished()
    ensures Trimmed(c, s', job)
  {
    var e := s.consumer.e;
    if HashCommand(e.command) != job {
      assert forall x :: x in s'.recorded <==> x in s.recorded || x == e;
      forall x | x in OfJob(s.ever, job) ensures Newer(s'.ever, x) == Newer(s.ever, x) {}
      assert Newest(s'.ever, job, c.retention) == Newest(s.ever, job, c.retention);
      assert OfJob(s'.rows, job) == OfJob(s.rows, job);
    }
  }

  lemma NextKeepsTrimmed(c: Config, s: World, a: Action, s': World, job: JobId)
    requires c.retention > 0 && Inv(c, s) && Trimmed(c, s, job) && Next(c, s, a, s')
    requires a.Prune? ==> a.ok
    ensures Trimmed(c, s', job)
  {
    if a.Record? {
      RecordKeepsTrimmed(c, s, a.ok, s', job);
    } else if a.Prune? {
      PruneRetains(s.ever, s.rows, HashCommand(s.consumer.e.command), c.retention, s'.rows);
    } else {
      assert s'.rows == s.rows && s'.ever == s.ever && s'.recorded == s.recorded;
    }
  }

  lemma {:induction false} ReachableTrimmed(c: Config, tr: seq<World>, acts: seq<Action>, i: nat, job: JobId)
    requires Execution(c, tr, acts) && i < |tr| && c.retention > 0
    requires forall k :: 0 <= k < i && acts[k].Prune? ==> acts[k].ok
    ensures Trimmed(c, tr[i], job)
  {
    if i > 0 {
      ReachableTrimmed(c, tr, acts, i - 1, job);
      ReachableInv(c, tr, acts, i - 1);
      NextKeepsTrimmed(c, tr[i - 1], acts[i - 1], tr[i], job);
    }
  }

  /** While no delete fails, a job keeps no more rows than the limit once one of its finishes was recorded: as many as
      the limit or as it ever had, and none of them older than one that is gone. */
  lemma RetentionIsExact(c: Config, tr: seq<World>, acts: seq<Action>, i: nat, e: Event, r: Row, x: Row)
    requires Execution(c, tr, acts) && i < |tr| && c.retention > 0
    requires forall k :: 0 <= k < i && acts[k].Prune? ==> acts[k].ok
    requires e in tr[i].recorded && !tr[i].consumer.Pruning?
    ensures var job := HashCommand(e.command);
            && |OfJob(tr[i].rows, job)| == (if |OfJob(tr[i].ever, job)| < c.retention then |OfJob(tr[i].ever, job)|
                                            else c.retention)
            && (r in tr[i].rows && r.job == job && x in tr[i].ever - tr[i].rows && x.job == job ==>
                  x.startedAt < r.startedAt)
  {
    var job := HashCommand(e.command);
    ReachableTrimmed(c, tr, acts, i, job);
    ReachableInv(c, tr, acts, i);
    NewestSize(tr[i].ever, job, c.retention);
    if r in tr[i].rows && r.job == job && x in tr[i].ever - tr[i].rows && x.job == job {
      assert r in OfJob(tr[i].rows, job) && x !in OfJob(tr[i].rows, job);
      NewestAreNewest(tr[i].ever, job, c.retention, r, x);
    }
  }
}
