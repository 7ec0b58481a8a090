/** The scheduler's runs as a protocol: any number of calls of runJobWithCommand, each at its own point, together with
    the commands resumed at start-up, a crash at any moment, and the restart after it. */
module RunMachine {
  import opened Domain
  import opened Deduplication
  import opened ResumeFiles

  type Pid = nat

  /** Whether duplicates are refused, and whether commands are registered for resuming. */
  datatype Options = Options(dedup: bool, resume: bool)

  datatype Outcome =
    | Completed
    | TemplateFailed
    | Duplicate
    | RegisterFailed
    | CommandFailed
    | NotifyFailed
    | FinishFailed

  /** Where a call is: command resolved; key taken; writing its file; past registration and executing; executed;
      notified and about to unregister; returned with the deferred release of the key still to come; done. */
  datatype Point =
    | Resolved
    | Holding
    | Writing(name: Name)
    | Executing(file: Option<Name>)
    | Executed(file: Option<Name>, ok: bool)
    | Unregistering(file: Option<Name>)
    | Releasing(out: Outcome)
    | Done(out: Outcome)

  datatype Call = Call(cmd: string, spec: string, at: Point)
  {
    function Key(): string { DedupKey(cmd, spec) }

    /** Between taking the key and releasing it. */
    predicate Holds() { !at.Resolved? && !at.Done? }

    /** Past registration, not yet past unregistering. */
    predicate Registered() { at.Executing? || at.Executed? || at.Unregistering? }

    function FileOf(): Option<Name> {
      if at.Writing? then Some(at.name) else if Registered() then at.file else None
    }
  }

  datatype Resumed = Pending | Finishing | Stopped

  /** held is the DeDup map's keys; floor and high are the latest clock readings before this start and so far. The
      fields from registered on are history: commands by the file they were registered under, files taken away by a
      successful OnFinish, files deleted as too old, and all names ever drawn. */
  datatype Sys = Sys(up: bool, held: set<string>, calls: map<Pid, Call>, resumed: map<Name, Resumed>,
                     number: nat, floor: int, high: int, dir: Directory,
                     registered: map<Name, string>, finished: set<Name>, expired: set<Name>, drawn: set<Name>)

  datatype Action =
    | Arrive(p: Pid, cmd: string, spec: string, resolves: bool)
    | Take(p: Pid)
    | Draw(p: Pid, nanos: int)
    | WritePart(p: Pid, content: string, modTime: Time)
    | WriteEnd(p: Pid, ok: bool, modTime: Time)
    | Execute(p: Pid, ok: bool)
    | Notify(p: Pid, sent: bool)
    | Unregister(p: Pid, io: bool)
    | Release(p: Pid)
    | Resume(n: Name, ok: bool, sent: bool)
    | ResumeFinish(n: Name, io: bool)
    | Crash
    | Boot(now: Time, unreadable: set<Name>, undeletable: set<Name>)

  function Moved(s: Sys, p: Pid, at: Point): Sys
    requires p in s.calls
  {
    s.(calls := s.calls[p := s.calls[p].(at := at)])
  }

  /** A scheduled or manual run begins; its command may fail to resolve. */
  ghost predicate ArriveStep(s: Sys, p: Pid, cmd: string, spec: string, resolves: bool, s': Sys) {
    && s.up && p !in s.calls
    && s' == s.(calls := s.calls[p := Call(cmd, spec, if resolves then Resolved else Done(TemplateFailed))])
  }

  ghost predicate TakeStep(o: Options, s: Sys, p: Pid, s': Sys) {
    && p in s.calls && s.calls[p].at == Resolved
    && var key := s.calls[p].Key();
       s' == if o.dedup && key in s.held then Moved(s, p, Done(Duplicate))
             else Moved(s, p, Holding).(held := if o.dedup then s.held + {key} else s.held)
  }

  /** OnStart draws the next number and reads the clock, which has moved on since the last start. */
  ghost predicate DrawStep(o: Options, s: Sys, p: Pid, nanos: int, s': Sys) {
    && p in s.calls && s.calls[p].at == Holding
    && if !o.resume then s' == Moved(s, p, Executing(None))
       else
         && nanos > s.floor
         && var name := Flag(nanos, s.number + 1);
            s' == Moved(s, p, Writing(name)).(number := s.number + 1, high := if nanos > s.high then nanos else s.high,
                                              drawn := s.drawn + {name})
  }

  /** The file is created, or grows: a crash now leaves a file with part of the command in it. */
  ghost predicate WritePartStep(s: Sys, p: Pid, content: string, modTime: Time, s': Sys) {
    && p in s.calls && s.calls[p].at.Writing?
    && s' == s.(dir := s.dir[s.calls[p].at.name := File(content, modTime)])
  }

  ghost predicate WriteEndStep(s: Sys, p: Pid, ok: bool, modTime: Time, s': Sys) {
    && p in s.calls && s.calls[p].at.Writing?
    && var name, cmd := s.calls[p].at.name, s.calls[p].cmd;
       s' == if ok then Moved(s, p, Executing(Some(name))).(dir := s.dir[name := File(cmd, modTime)],
                                                            registered := s.registered[name := cmd])
             else Moved(s, p, Releasing(RegisterFailed))
  }

  ghost predicate ExecuteStep(s: Sys, p: Pid, ok: bool, s': Sys) {
    && p in s.calls && s.calls[p].at.Executing?
    && s' == Moved(s, p, Executed(s.calls[p].at.file, ok))
  }

  /** A failed notification and a failed command both return before the file is taken away. */
  ghost predicate NotifyStep(s: Sys, p: Pid, sent: bool, s': Sys) {
    && p in s.calls && s.calls[p].at.Executed?
    && s' == Moved(s, p, if !sent then Releasing(NotifyFailed)
                         else if !s.calls[p].at.ok then Releasing(CommandFailed)
                         else Unregistering(s.calls[p].at.file))
  }

  ghost predicate UnregisterStep(s: Sys, p: Pid, io: bool, s': Sys) {
    && p in s.calls && s.calls[p].at.Unregistering?
    && var file := s.calls[p].at.file;
       s' == if file.None? then Moved(s, p, Releasing(Completed))
             else if io && file.value in s.dir then Moved(s, p, Releasing(Completed)).(dir := s.dir - {file.value},
                                                                                 finished := s.finished + {file.value})
             else Moved(s, p, Releasing(FinishFailed))
  }

  ghost predicate ReleaseStep(o: Options, s: Sys, p: Pid, s': Sys) {
    && p in s.calls && s.calls[p].at.Releasing?
    && s' == Moved(s, p, Done(s.calls[p].at.out)).(held := if o.dedup then s.held - {s.calls[p].Key()} else s.held)
  }

  /** A resumed command runs; only a failure whose notification fails too keeps its file. */
  ghost predicate ResumeStep(s: Sys, n: Name, ok: bool, sent: bool, s': Sys) {
    && n in s.resumed && s.resumed[n] == Pending
    && s' == s.(resumed := s.resumed[n := if ok || sent then Finishing else Stopped])
  }

  ghost predicate ResumeFinishStep(s: Sys, n: Name, io: bool, s': Sys) {
    && n in s.resumed && s.resumed[n] == Finishing
    && var stopped := s.(resumed := s.resumed[n := Stopped]);
       s' == if io && n in s.dir then stopped.(dir := s.dir - {n}, finished := s.finished + {n}) else stopped
  }

  /** The process dies: only the directory survives. */
  ghost predicate CrashStep(s: Sys, s': Sys) {
    s.up && s' == s.(up := false, held := {}, calls := map[], resumed := map[], number := 0, floor := s.high)
  }

  /** The process starts again and lists the directory before anything else runs. */
  ghost predicate BootStep(o: Options, s: Sys, now: Time, unreadable: set<Name>, undeletable: set<Name>, s': Sys) {
    && !s.up
    && if !o.resume then s' == s.(up := true)
       else
         var old' := set n | n in s.dir && Expires(s.dir, n, now) && n !in undeletable;
         s' == s.(up := true,
                  resumed := map n | n in s.dir && Resumable(s.dir, n, now) && n !in unreadable :: Pending,
                  dir := s.dir - old', expired := s.expired + old')
  }

  ghost predicate Next(o: Options, s: Sys, a: Action, s': Sys) {
    match a
    case Arrive(p, cmd, spec, resolves) => ArriveStep(s, p, cmd, spec, resolves, s')
    case Take(p) => TakeStep(o, s, p, s')
    case Draw(p, nanos) => DrawStep(o, s, p, nanos, s')
    case WritePart(p, content, modTime) => WritePartStep(s, p, content, modTime, s')
    case WriteEnd(p, ok, modTime) => WriteEndStep(s, p, ok, modTime, s')
    case Execute(p, ok) => ExecuteStep(s, p, ok, s')
    case Notify(p, sent) => NotifyStep(s, p, sent, s')
    case Unregister(p, io) => UnregisterStep(s, p, io, s')
    case Release(p) => ReleaseStep(o, s, p, s')
    case Resume(n, ok, sent) => ResumeStep(s, n, ok, sent, s')
    case ResumeFinish(n, io) => ResumeFinishStep(s, n, io, s')
    case Crash => CrashStep(s, s')
    case Boot(now, unreadable, undeletable) => BootStep(o, s, now, unreadable, undeletable, s')
  }

  /** Before the first start: any directory, whose flag files carry readings of an earlier clock. */
  ghost predicate Init(s: Sys) {
    && !s.up && s.held == {} && s.calls == map[] && s.resumed == map[] && s.number == 0 && s.floor == s.high
    && s.registered == map[] && s.finished == {} && s.expired == {}
    && (forall n :: n in s.dir && n.Flag? ==> n in s.drawn)
    && (forall n :: n in s.drawn ==> n.Flag? && n.nanos <= s.high)
  }

  ghost predicate Execution(o: Options, tr: seq<Sys>, acts: seq<Action>) {
    && |tr| == |acts| + 1 && Init(tr[0])
    && forall i :: 0 <= i < |acts| ==> Next(o, tr[i], acts[i], tr[i + 1])
  }

  // ----- one holder per key -----

  ghost predicate HoldsKey(s: Sys, p: Pid, key: string) {
    p in s.calls && s.calls[p].Holds() && s.calls[p].Key() == key
  }

  /** With deduplication on, the map's keys are exactly the keys of the calls that hold one, and no two calls hold
      the same; with it off, the map stays empty. */
  ghost predicate KeysAreHeld(o: Options, s: Sys) {
    if !o.dedup then s.held == {}
    else
      && (forall p, key :: HoldsKey(s, p, key) ==> key in s.held)
      && (forall key :: key in s.held ==> exists p :: HoldsKey(s, p, key))
      && (forall p, q, key :: HoldsKey(s, p, key) && HoldsKey(s, q, key) ==> p == q)
  }

  lemma TakeChangesHolders(o: Options, s: Sys, q: Pid, s': Sys, p: Pid, key: string)
    requires TakeStep(o, s, q, s')
    ensures HoldsKey(s', p, key) <==>
              HoldsKey(s, p, key) || (q == p && s'.calls[p].at.Holding? && s'.calls[p].Key() == key)
  {
  }

  lemma ReleaseChangesHolders(o: Options, s: Sys, q: Pid, s': Sys, p: Pid, key: string)
    requires ReleaseStep(o, s, q, s')
    ensures HoldsKey(s', p, key) <==> HoldsKey(s, p, key) && q != p
  {
  }

  lemma MoveKeepsHolders(s: Sys, q: Pid, at: Point, s': Sys, p: Pid, key: string)
    requires q in s.calls && s.calls[q].Holds() && !at.Resolved? && !at.Done?
    requires s'.calls == s.calls[q := s.calls[q].(at := at)]
    ensures HoldsKey(s', p, key) <==> HoldsKey(s, p, key)
  {
  }

  /** The other steps leave the holders alone. */
  lemma HoldersStay(o: Options, s: Sys, a: Action, s': Sys, p: Pid, key: string)
    requires Next(o, s, a, s') && !a.Crash? && !a.Take? && !a.Release?
    ensures HoldsKey(s', p, key) <==> HoldsKey(s, p, key)
  {
    match a
    case Draw(q, _) => MoveKeepsHolders(s, q, s'.calls[q].at, s', p, key);
    case WriteEnd(q, _, _) => MoveKeepsHolders(s, q, s'.calls[q].at, s', p, key);
    case Execute(q, _) => MoveKeepsHolders(s, q, s'.calls[q].at, s', p, key);
    case Notify(q, _) => MoveKeepsHolders(s, q, s'.calls[q].at, s', p, key);
    case Unregister(q, _) => MoveKeepsHolders(s, q, s'.calls[q].at, s', p, key);
    case _ =>
  }

  lemma HeldStays(o: Options, s: Sys, a: Action, s': Sys)
    requires Next(o, s, a, s') && !a.Crash? && !(o.dedup && (a.Take? || a.Release?))
    ensures s'.held == s.held
  {
  }

  lemma TakeKeepsKeys(o: Options, s: Sys, q: Pid, s': Sys)
    requires o.dedup && KeysAreHeld(o, s) && TakeStep(o, s, q, s')
    ensures KeysAreHeld(o, s')
  {
    var taken := s.calls[q].Key();
    var admitted := taken !in s.held;
    assert s'.held == if admitted then s.held + {taken} else s.held;
    forall p, key ensures HoldsKey(s', p, key) <==> HoldsKey(s, p, key) || (admitted && p == q && key == taken) {
      TakeChangesHolders(o, s, q, s', p, key);
    }
    forall key | key in s'.held ensures exists p :: HoldsKey(s', p, key) {
      if key in s.held {
        var p :| HoldsKey(s, p, key);
        assert HoldsKey(s', p, key);
      } else {
        assert HoldsKey(s', q, key);
      }
    }
  }

  lemma ReleaseKeepsKeys(o: Options, s: Sys, q: Pid, s': Sys)
    requires o.dedup && KeysAreHeld(o, s) && ReleaseStep(o, s, q, s')
    ensures KeysAreHeld(o, s')
  {
    assert HoldsKey(s, q, s.calls[q].Key());
    forall p, key ensures HoldsKey(s', p, key) <==> HoldsKey(s, p, key) && q != p {
      ReleaseChangesHolders(o, s, q, s', p, key);
    }
    forall key | key in s'.held ensures exists p :: HoldsKey(s', p, key) {
      var p :| HoldsKey(s, p, key);
      assert p != q;
      assert HoldsKey(s', p, key);
    }
  }

  lemma NextKeepsKeys(o: Options, s: Sys, a: Action, s': Sys)
    requires KeysAreHeld(o, s) && Next(o, s, a, s')
    ensures KeysAreHeld(o, s')
  {
    if o.dedup && a.Take? {
      TakeKeepsKeys(o, s, a.p, s');
    } else if o.dedup && a.Release? {
      ReleaseKeepsKeys(o, s, a.p, s');
    } else if !a.Crash? {
      HeldStays(o, s, a, s');
      if o.dedup {
        forall p, key ensures HoldsKey(s', p, key) <==> HoldsKey(s, p, key) {
          HoldersStay(o, s, a, s', p, key);
        }
        forall key | key in s'.held ensures exists p :: HoldsKey(s', p, key) {
          var p :| HoldsKey(s, p, key);
          assert HoldsKey(s', p, key);
        }
      }
    }
  }

  lemma {:induction false} ReachableKeys(o: Options, tr: seq<Sys>, acts: seq<Action>, i: nat)
    requires Execution(o, tr, acts) && i < |tr|
    ensures KeysAreHeld(o, tr[i])
  {
    if i > 0 {
      ReachableKeys(o, tr, acts, i - 1);
      NextKeepsKeys(o, tr[i - 1], acts[i - 1], tr[i]);
    }
  }

  /** With deduplication on, in every interleaving at most one call of a command and schedule is between Add and
      Remove, and its key is in the map. */
  lemma OneRunPerKey(o: Options, tr: seq<Sys>, acts: seq<Action>, i: nat, p: Pid, q: Pid)
    requires Execution(o, tr, acts) && i < |tr| && o.dedup
    requires p in tr[i].calls && q in tr[i].calls && p != q
    ensures tr[i].calls[p].Holds() ==> tr[i].calls[p].Key() in tr[i].held
    ensures tr[i].calls[p].Holds() && tr[i].calls[q].Holds() ==>
              tr[i].calls[p].cmd != tr[i].calls[q].cmd || tr[i].calls[p].spec != tr[i].calls[q].spec
  {
    ReachableKeys(o, tr, acts, i);
    assert tr[i].calls[p].Holds() ==> HoldsKey(tr[i], p, tr[i].calls[p].Key());
    assert tr[i].calls[q].Holds() ==> HoldsKey(tr[i], q, tr[i].calls[q].Key());
  }

  /** Every return, early or late, has released its key: in every reachable state a key is in the map exactly when a
      call is between Add and Remove with it, so the map is empty exactly when no call is in between. */
  lemma EveryReturnReleases(o: Options, tr: seq<Sys>, acts: seq<Action>, i: nat, key: string)
    requires Execution(o, tr, acts) && i < |tr| && o.dedup
    ensures key in tr[i].held <==> exists p :: p in tr[i].calls && tr[i].calls[p].Holds() && tr[i].calls[p].Key() == key
    ensures tr[i].held == {} <==> forall p :: p in tr[i].calls ==> !tr[i].calls[p].Holds()
  {
    ReachableKeys(o, tr, acts, i);
    if key in tr[i].held {
      var p :| HoldsKey(tr[i], p, key);
    }
    forall p | p in tr[i].calls && tr[i].calls[p].Holds() ensures tr[i].calls[p].Key() in tr[i].held {
      assert HoldsKey(tr[i], p, tr[i].calls[p].Key());
    }
    if held :| held in tr[i].held {
      var p :| HoldsKey(tr[i], p, held);
    }
  }

  /** A call is turned away exactly when another one holds its key, and that one goes on holding it. */
  lemma DuplicateIff(o: Options, tr: seq<Sys>, acts: seq<Action>, i: nat, q: Pid)
    requires Execution(o, tr, acts) && i < |acts| && o.dedup && acts[i] == Take(q)
    ensures q in tr[i].calls && q in tr[i + 1].calls
    ensures var key := tr[i].calls[q].Key();
            && (tr[i + 1].calls[q].at == Done(Duplicate) <==> exists r :: r != q && HoldsKey(tr[i], r, key))
            && (tr[i + 1].calls[q].at != Done(Duplicate) ==> HoldsKey(tr[i + 1], q, key))
            && (forall r :: r != q && HoldsKey(tr[i], r, key) ==> HoldsKey(tr[i + 1], r, key))
  {
    ReachableKeys(o, tr, acts, i);
    var s, s' := tr[i], tr[i + 1];
    assert TakeStep(o, s, q, s');
    var key := s.calls[q].Key();
    assert !HoldsKey(s, q, key);
    if key in s.held {
      var r :| HoldsKey(s, r, key);
      assert r != q;
    }
    forall r | r != q && HoldsKey(s, r, key) ensures HoldsKey(s', r, key) {
      TakeChangesHolders(o, s, q, s', r, key);
    }
  }
}
