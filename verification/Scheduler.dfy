/** One run of a job, from its resolved command to its return, and the resuming of interrupted commands. Here each runs
    alone; the run machine interleaves the same steps. */
module Scheduling {
  import opened Domain
  import opened Deduplication
  import opened ResumeFiles
  import opened RunMachine

  datatype Result = Succeeded | Exited(code: int) | Broken

  /** Everything one run gets from outside: clock readings, and how each attempt to write, execute, notify and
      delete ends. */
  datatype Env = Env(now: Time, nanos: int, modTime: Time, write: Write, startTime: Time,
                     result: Result, output: string, endTime: Time, sent: bool, io: bool)

  function ExitCode(r: Result): int {
    match r
    case Succeeded => 0
    case Exited(code) => code
    case Broken => 1
  }

  function StartOf(command: string, spec: string, executed: string, env: Env): Event {
    Event(StartEvent, command, executed, spec, env.startTime, ZERO_TIME, 0, "")
  }

  function FinishOf(command: string, spec: string, executed: string, env: Env): Event {
    Event(if env.result.Succeeded? then CompletedEvent else FailedEvent, command, executed, spec,
          env.startTime, env.endTime, ExitCode(env.result), env.output)
  }

  /** How a run that was let in and registered ends: the first failure decides, and only a run without one takes its
      file away. */
  function Ending(resume: bool, env: Env): Outcome {
    if !env.sent then NotifyFailed
    else if !env.result.Succeeded? then CommandFailed
    else if resume && !env.io then FinishFailed
    else Completed
  }

  /** The outcome of a run, given whether its command resolves and whether another run holds its key. */
  function OutcomeOf(o: Options, resolves: bool, taken: bool, env: Env): Outcome {
    if !resolves then TemplateFailed
    else if o.dedup && taken then Duplicate
    else if o.resume && !env.write.Written? then RegisterFailed
    else Ending(o.resume, env)
  }

  /** The resume directory after it: untouched by a run that was not let in; with a leftover after a write that
      broke off; and with the run's file in it unless the run completed. */
  function DirAfter(o: Options, dir: Directory, number: nat, cmd: string, env: Env, out: Outcome): Directory {
    var name := Flag(env.nanos, number + 1);
    if !o.resume || out == TemplateFailed || out == Duplicate then dir
    else if out == Completed then dir - {name}
    else if out != RegisterFailed then dir[name := File(cmd, env.modTime)]
    else if env.write.Partial? then dir[name := File(env.write.content, env.modTime)]
    else dir
  }

  /** The events a run hands to the event handler: none if it was not let in or not registered. */
  function EventsOf(hasHandler: bool, command: string, spec: string, executed: string, env: Env, out: Outcome)
    : seq<Event>
  {
    if hasHandler && out != TemplateFailed && out != Duplicate && out != RegisterFailed
    then [StartOf(command, spec, executed, env), FinishOf(command, spec, executed, env)] else []
  }

  class Scheduler {
    const deDup: DeDup
    const resumer: Resumer
    const hasHandler: bool
    /** The events handed to the event handler. */
    var events: seq<Event>

    constructor (deDup: DeDup, resumer: Resumer, hasHandler: bool)
      ensures this.deDup == deDup && this.resumer == resumer && this.hasHandler == hasHandler && events == []
    {
      this.deDup, this.resumer, this.hasHandler, events := deDup, resumer, hasHandler, [];
    }

    function Settings(): Options {
      Options(deDup.enabled, resumer.enabled)
    }

    /** None stands for a command whose template does not resolve. Every return leaves the DeDup map as it was: the
        key taken is released, and a key someone else holds is not. */
    method RunJobWithCommand(command: string, spec: string, resolved: Option<string>, isManual: bool, env: Env)
      returns (out: Outcome)
      modifies deDup`active, resumer`number, resumer`dir, this`events
      ensures deDup.active == old(deDup.active)
      ensures var cmd := if resolved.Some? then resolved.value else "";
              && out == OutcomeOf(Settings(), resolved.Some?, DedupKey(cmd, spec) in old(deDup.active), env)
              && resumer.dir == DirAfter(Settings(), old(resumer.dir), old(resumer.number), cmd, env, out)
              && events == old(events) + EventsOf(hasHandler, command, spec, if isManual then cmd else "", env, out)
    {
      if resolved.None? { return TemplateFailed; }
      var cmd := resolved.value;
      var key := DedupKey(cmd, spec);
      var added := deDup.Add(key, env.now);
      if !added { return Duplicate; }
      out := RunRegistered(command, spec, cmd, isManual, env);
      deDup.Remove(key);
    }

    /** The part of a run between taking the key and releasing it. */
    method RunRegistered(command: string, spec: string, cmd: string, isManual: bool, env: Env) returns (out: Outcome)
      modifies resumer`number, resumer`dir, this`events
      ensures out == OutcomeOf(Settings(), true, false, env)
      ensures resumer.dir == DirAfter(Settings(), old(resumer.dir), old(resumer.number), cmd, env, out)
      ensures events == old(events) + EventsOf(hasHandler, command, spec, if isManual then cmd else "", env, out)
    {
      var ok, file := resumer.OnStart(cmd, env.nanos, env.modTime, env.write);
      if !ok { return RegisterFailed; }
      var executed := if isManual then cmd else "";
      if hasHandler {
        events := events + [StartOf(command, spec, executed, env)];
      }
      // the command executes here
      if hasHandler {
        events := events + [FinishOf(command, spec, executed, env)];
      }
      if !env.sent { return NotifyFailed; }
      if !env.result.Succeeded? { return CommandFailed; }
      var removed := resumer.OnFinish(file, env.io);
      return if removed then Completed else FinishFailed;
    }

    /** One listed command: if it fails, its file stays only if the notification fails too. */
    method ResumeOne(c: Cmd, succeeds: bool, notified: bool, removable: bool)
      requires resumer.enabled
      modifies resumer`dir
      ensures resumer.dir == old(resumer.dir) - if (succeeds || notified) && removable then {c.file} else {}
    {
      if !succeeds && !notified { return; }
      var _ := resumer.OnFinish(Some(c.file), removable);
    }

    /** Resumes the listed commands, at most concur of them at a time, begun and ended in any order. */
    method ResumeInterrupted(cmds: seq<Cmd>, concur: int, succeeds: Name -> bool, notified: Name -> bool,
                             removable: Name -> bool)
      requires resumer.enabled
      modifies resumer`dir
      ensures resumer.dir == old(resumer.dir) - Unregistered((set c | c in cmds), succeeds, notified, removable)
    {
      var limit := if concur <= 0 then 1 else concur;
      var waiting: set<Cmd> := set c | c in cmds;
      var running: set<Cmd> := {};
      ghost var listed, ended: set<Cmd> := waiting, {};
      while waiting != {} || running != {}
        invariant |running| <= limit
        invariant forall c :: c in listed <==> c in ended || c in running || c in waiting
        invariant resumer.dir == old(resumer.dir) - Unregistered(ended, succeeds, notified, removable)
        decreases |waiting|, |running|
      {
        if
        case waiting != {} && |running| < limit =>
          var c :| c in waiting;
          waiting, running := waiting - {c}, running + {c};
        case running != {} =>
          var c :| c in running;
          running := running - {c};
          OneMoreUnregistered(old(resumer.dir), ended, c, succeeds, notified, removable);
          ended := ended + {c};
          ResumeOne(c, succeeds(c.file), notified(c.file), removable(c.file));
      }
      assert ended == listed;
    }
  }

  /** The files that resuming these commands takes away. */
  function Unregistered(cmds: set<Cmd>, succeeds: Name -> bool, notified: Name -> bool, removable: Name -> bool)
    : set<Name>
  {
    set c | c in cmds && (succeeds(c.file) || notified(c.file)) && removable(c.file) :: c.file
  }

  lemma OneMoreUnregistered(dir: Directory, cmds: set<Cmd>, c: Cmd, succeeds: Name -> bool, notified: Name -> bool,
                            removable: Name -> bool)
    ensures dir - Unregistered(cmds + {c}, succeeds, notified, removable) ==
            dir - Unregistered(cmds, succeeds, notified, removable)
            - if (succeeds(c.file) || notified(c.file)) && removable(c.file) then {c.file} else {}
  {
    assert Unregistered(cmds + {c}, succeeds, notified, removable) ==
           Unregistered(cmds, succeeds, notified, removable) +
           if (succeeds(c.file) || notified(c.file)) && removable(c.file) then {c.file} else {};
  }

  /** What each way of ending means, and what it leaves in the resume directory: a run that completed has no file, one
      that failed at any point after it was registered has its command in one, and no other file is touched. */
  lemma RunMeans(o: Options, resolves: bool, taken: bool, dir: Directory, number: nat, cmd: string, env: Env, n: Name)
    ensures var out := OutcomeOf(o, resolves, taken, env);
            var dir' := DirAfter(o, dir, number, cmd, env, out);
            var admitted := resolves && !(o.dedup && taken);
            var registered := admitted && (o.resume ==> env.write == Written);
            && (out == TemplateFailed <==> !resolves)
            && (out == Duplicate <==> resolves && !admitted)
            && (out == RegisterFailed <==> admitted && !registered)
            && (out == NotifyFailed <==> registered && !env.sent)
            && (out == CommandFailed <==> registered && env.sent && env.result != Succeeded)
            && (out == FinishFailed <==> registered && env.sent && env.result == Succeeded && o.resume && !env.io)
            && (o.resume && out == Completed ==> Flag(env.nanos, number + 1) !in dir')
            && (o.resume && (out == NotifyFailed || out == CommandFailed || out == FinishFailed) ==>
                  Flag(env.nanos, number + 1) in dir'
                  && dir'[Flag(env.nanos, number + 1)] == File(cmd, env.modTime))
            && (n != Flag(env.nanos, number + 1) || !o.resume ==>
                  (n in dir' <==> n in dir) && (n in dir ==> dir'[n] == dir[n]))
  {
  }

  /** What a run tells the dashboard, if anything: one start and one finish of the same run, in that order, the finish
      with the run's result. */
  lemma EventsPair(hasHandler: bool, command: string, spec: string, executed: string, env: Env, out: Outcome)
    ensures var sent := EventsOf(hasHandler, command, spec, executed, env, out);
            && (sent == [] <==> !hasHandler || out == TemplateFailed || out == Duplicate || out == RegisterFailed)
            && (sent != [] ==>
                  && |sent| == 2 && sent[0].kind == StartEvent
                  && sent[1].kind == (if env.result == Succeeded then CompletedEvent else FailedEvent)
                  && (forall e :: e in sent ==> e.command == command && e.executed == executed && e.schedule == spec
                                                && e.startedAt == env.startTime)
                  && sent[1].finishedAt == env.endTime && sent[1].output == env.output
                  && (env.result == Succeeded ==> sent[1].exitCode == 0)
                  && (env.result == Broken ==> sent[1].exitCode == 1)
                  && (env.result.Exited? ==> sent[1].exitCode == env.result.code))
    ensures var sent := EventsOf(hasHandler, command, spec, executed, env, out);
            sent != [] ==> sent[1].Finished()
                           && sent[0].Key() == sent[1].Key() == RunKey(HashCommand(command), Micro(env.startTime))
  {
  }

  // ----- the run machine walks the same way -----

  ghost predicate Steps(o: Options, tr: seq<Sys>, acts: seq<Action>) {
    |tr| == |acts| + 1 && forall i :: 0 <= i < |acts| ==> Next(o, tr[i], acts[i], tr[i + 1])
  }

  lemma StepsThen(o: Options, tr: seq<Sys>, acts: seq<Action>, a: Action, s': Sys)
    returns (tr': seq<Sys>, acts': seq<Action>)
    requires Steps(o, tr, acts) && Next(o, tr[|tr| - 1], a, s')
    ensures Steps(o, tr', acts') && tr'[0] == tr[0] && tr'[|tr'| - 1] == s'
  {
    tr', acts' := tr + [s'], acts + [a];
  }

  /** From registration on: the call executes, notifies and, if all went well, takes its file away. */
  lemma RegisteredRunIsSteps(o: Options, s: Sys, p: Pid, file: Option<Name>, env: Env)
    returns (tr: seq<Sys>, acts: seq<Action>)
    requires p in s.calls && s.calls[p].at == Executing(file)
    requires if o.resume then file.Some? && file.value in s.dir else file.None?
    ensures Steps(o, tr, acts) && tr[0] == s
    ensures var last, out := tr[|tr| - 1], Ending(o.resume, env);
            && last.calls == s.calls[p := s.calls[p].(at := Releasing(out))] && last.held == s.held
            && last.dir == if o.resume && out == Completed then s.dir - {file.value} else s.dir
  {
    var ran := Moved(s, p, Executed(file, env.result.Succeeded?));
    assert ExecuteStep(s, p, env.result.Succeeded?, ran);
    tr, acts := [s, ran], [Execute(p, env.result.Succeeded?)];
    if env.sent && env.result.Succeeded? {
      var told := Moved(ran, p, Unregistering(file));
      assert NotifyStep(ran, p, env.sent, told);
      tr, acts := StepsThen(o, tr, acts, Notify(p, env.sent), told);
      var ended := if file.None? then Moved(told, p, Releasing(Completed))
                   else if env.io then Moved(told, p, Releasing(Completed)).(dir := told.dir - {file.value},
                                                                        finished := told.finished + {file.value})
                   else Moved(told, p, Releasing(FinishFailed));
      assert UnregisterStep(told, p, env.io, ended);
      tr, acts := StepsThen(o, tr, acts, Unregister(p, env.io), ended);
    } else {
      var told := Moved(ran, p, Releasing(Ending(o.resume, env)));
      assert NotifyStep(ran, p, env.sent, told);
      tr, acts := StepsThen(o, tr, acts, Notify(p, env.sent), told);
    }
  }

  lemma WritingIsSteps(o: Options, s: Sys, p: Pid, env: Env) returns (tr: seq<Sys>, acts: seq<Action>)
    requires p in s.calls && s.calls[p].at.Writing?
    ensures Steps(o, tr, acts) && tr[0] == s
    ensures var last, name := tr[|tr| - 1], s.calls[p].at.name;
            && last.held == s.held
            && last.calls == s.calls[p := s.calls[p].(at :=
                 if env.write.Written? then Executing(Some(name)) else Releasing(RegisterFailed))]
            && last.dir == if env.write.Refused? then s.dir
                           else s.dir[name := File(if env.write.Written? then s.calls[p].cmd else env.write.content,
                                                   env.modTime)]
  {
    var name, part := s.calls[p].at.name, s;
    tr, acts := [s], [];
    if env.write.Partial? {
      part := s.(dir := s.dir[name := File(env.write.content, env.modTime)]);
      assert WritePartStep(s, p, env.write.content, env.modTime, part);
      tr, acts := [s, part], [WritePart(p, env.write.content, env.modTime)];
    }
    var last := if env.write.Written?
                then Moved(part, p, Executing(Some(name))).(dir := part.dir[name := File(s.calls[p].cmd, env.modTime)],
                                                            registered := part.registered[name := s.calls[p].cmd])
                else Moved(part, p, Releasing(RegisterFailed));
    assert WriteEndStep(part, p, env.write.Written?, env.modTime, last);
    tr, acts := StepsThen(o, tr, acts, WriteEnd(p, env.write.Written?, env.modTime), last);
  }

  lemma StepsJoin(o: Options, tr: seq<Sys>, acts: seq<Action>, tr': seq<Sys>, acts': seq<Action>)
    returns (all: seq<Sys>, done: seq<Action>)
    requires Steps(o, tr, acts) && Steps(o, tr', acts') && tr[|tr| - 1] == tr'[0]
    ensures Steps(o, all, done) && all[0] == tr[0] && all[|all| - 1] == tr'[|tr'| - 1]
  {
    all, done := tr + tr'[1..], acts + acts';
  }

  /** Between taking the key and registration: the file is written, in part or whole, or there is none. */
  lemma RegisteringIsSteps(o: Options, s: Sys, p: Pid, env: Env) returns (tr: seq<Sys>, acts: seq<Action>)
    requires p in s.calls && s.calls[p].at == Holding && env.nanos > s.floor
    ensures Steps(o, tr, acts) && tr[0] == s
    ensures var last, name := tr[|tr| - 1], Flag(env.nanos, s.number + 1);
            && last.held == s.held
            && last.calls == s.calls[p := s.calls[p].(at :=
                 if !o.resume then Executing(None)
                 else if env.write.Written? then Executing(Some(name)) else Releasing(RegisterFailed))]
            && last.dir == if !o.resume || env.write.Refused? then s.dir
                           else s.dir[name := File(if env.write.Written? then s.calls[p].cmd else env.write.content,
                                                   env.modTime)]
  {
    var name := Flag(env.nanos, s.number + 1);
    var drawn := if !o.resume then Moved(s, p, Executing(None))
                 else Moved(s, p, Writing(name)).(number := s.number + 1,
                                                  high := if env.nanos > s.high then env.nanos else s.high,
                                                  drawn := s.drawn + {name});
    assert DrawStep(o, s, p, env.nanos, drawn);
    tr, acts := [s, drawn], [Draw(p, env.nanos)];
    if o.resume {
      var rest, restActs := WritingIsSteps(o, drawn, p, env);
      tr, acts := StepsJoin(o, tr, acts, rest, restActs);
    }
  }

  /** From taking the key to just before releasing it. */
  lemma HoldingRunIsSteps(o: Options, s: Sys, p: Pid, env: Env) returns (tr: seq<Sys>, acts: seq<Action>)
    requires p in s.calls && s.calls[p].at == Holding && env.nanos > s.floor
    ensures Steps(o, tr, acts) && tr[0] == s
    ensures var last, out := tr[|tr| - 1], OutcomeOf(o, true, false, env);
            && last.calls == s.calls[p := s.calls[p].(at := Releasing(out))] && last.held == s.held
            && last.dir == DirAfter(o, s.dir, s.number, s.calls[p].cmd, env, out)
  {
    tr, acts := RegisteringIsSteps(o, s, p, env);
    if !o.resume || env.write.Written? {
      var ready := tr[|tr| - 1];
      var rest, restActs := RegisteredRunIsSteps(o, ready, p, ready.calls[p].at.file, env);
      tr, acts := StepsJoin(o, tr, acts, rest, restActs);
    }
  }

  lemma EnteringIsSteps(o: Options, s: Sys, p: Pid, cmd: string, spec: string)
    returns (tr: seq<Sys>, acts: seq<Action>)
    requires s.up && p !in s.calls
    ensures Steps(o, tr, acts) && tr[0] == s
    ensures var last, key := tr[|tr| - 1], DedupKey(cmd, spec);
            last == if o.dedup && key in s.held then s.(calls := s.calls[p := Call(cmd, spec, Done(Duplicate))])
                    else s.(calls := s.calls[p := Call(cmd, spec, Holding)],
                            held := if o.dedup then s.held + {key} else s.held)
  {
    var arrived := s.(calls := s.calls[p := Call(cmd, spec, Resolved)]);
    assert ArriveStep(s, p, cmd, spec, true, arrived);
    var key := DedupKey(cmd, spec);
    var last := if o.dedup && key in s.held then Moved(arrived, p, Done(Duplicate))
                else Moved(arrived, p, Holding).(held := if o.dedup then s.held + {key} else s.held);
    assert TakeStep(o, arrived, p, last);
    tr, acts := [s, arrived, last], [Arrive(p, cmd, spec, true), Take(p)];
  }

  /** From taking the key to the end: the key is released. */
  lemma AdmittedRunIsSteps(o: Options, s: Sys, p: Pid, held: set<string>, env: Env)
    returns (tr: seq<Sys>, acts: seq<Action>)
    requires p in s.calls && s.calls[p].at == Holding && env.nanos > s.floor
    requires s.held == if o.dedup then held + {s.calls[p].Key()} else held
    requires o.dedup ==> s.calls[p].Key() !in held
    ensures Steps(o, tr, acts) && tr[0] == s
    ensures var last, out := tr[|tr| - 1], OutcomeOf(o, true, false, env);
            && last.calls == s.calls[p := s.calls[p].(at := Done(out))] && last.held == held
            && last.dir == DirAfter(o, s.dir, s.number, s.calls[p].cmd, env, out)
  {
    tr, acts := HoldingRunIsSteps(o, s, p, env);
    var leaving, out := tr[|tr| - 1], OutcomeOf(o, true, false, env);
    var last := Moved(leaving, p, Done(out)).(held := held);
    LeavingIsStep(o, leaving, p, held, last);
    tr, acts := StepsThen(o, tr, acts, Release(p), last);
  }

  /** A run that nothing interleaves is a fragment of the run machine: from any state a new call can take the steps
      that end with the method's outcome, its directory, and the held keys as they were. */
  lemma RunIsSteps(o: Options, s: Sys, p: Pid, cmd: string, spec: string, resolves: bool, env: Env)
    returns (tr: seq<Sys>, acts: seq<Action>)
    requires s.up && p !in s.calls && env.nanos > s.floor
    ensures Steps(o, tr, acts) && tr[0] == s
    ensures var last, out := tr[|tr| - 1], OutcomeOf(o, resolves, DedupKey(cmd, spec) in s.held, env);
            && last.calls == s.calls[p := Call(cmd, spec, Done(out))] && last.held == s.held
            && last.dir == DirAfter(o, s.dir, s.number, cmd, env, out)
  {
    if !resolves {
      var gone := s.(calls := s.calls[p := Call(cmd, spec, Done(TemplateFailed))]);
      assert ArriveStep(s, p, cmd, spec, false, gone);
      return [s, gone], [Arrive(p, cmd, spec, false)];
    }
    tr, acts := EnteringIsSteps(o, s, p, cmd, spec);
    var taken := tr[|tr| - 1];
    if taken.calls[p].at == Done(Duplicate) { return; }
    var rest, restActs := AdmittedRunIsSteps(o, taken, p, s.held, env);
    tr, acts := StepsJoin(o, tr, acts, rest, restActs);
  }

  lemma LeavingIsStep(o: Options, s: Sys, p: Pid, held: set<string>, s': Sys)
    requires p in s.calls && s.calls[p].at.Releasing? && s' == Moved(s, p, Done(s.calls[p].at.out)).(held := held)
    requires s.held == if o.dedup then held + {s.calls[p].Key()} else held
    requires o.dedup ==> s.calls[p].Key() !in held
    ensures ReleaseStep(o, s, p, s')
  {
    assert o.dedup ==> s.held - {s.calls[p].Key()} == held;
  }

  /** What List returns and leaves behind is what the machine's start makes of the directory. */
  lemma ListingIsBoot(o: Options, s: Sys, now: Time, unreadable: set<Name>, undeletable: set<Name>, dir': Directory,
                      cmds: seq<Cmd>) returns (s': Sys)
    requires o.resume && !s.up
    requires forall n :: n in dir' ==> n in s.dir && dir'[n] == s.dir[n]
    requires forall n :: n in s.dir ==>
               (n !in dir' <==> s.dir[n].File? && (n.Flag? || EndsWith(n.name, ".cronn"))
                                && now > s.dir[n].modTime + 24 * 3600 * 1000000000 && n !in undeletable)
    requires forall c :: c in cmds <==>
               && c.file in s.dir && s.dir[c.file].File? && (c.file.Flag? || EndsWith(c.file.name, ".cronn"))
               && now <= s.dir[c.file].modTime + 24 * 3600 * 1000000000
               && c.file !in unreadable && c.command == s.dir[c.file].content
    ensures BootStep(o, s, now, unreadable, undeletable, s') && s'.dir == dir'
    ensures forall n :: n in s'.resumed <==> exists c :: c in cmds && c.file == n
  {
    var old' := set n | n in s.dir && Expires(s.dir, n, now) && n !in undeletable;
    s' := s.(up := true, resumed := map n | n in s.dir && Resumable(s.dir, n, now) && n !in unreadable :: Pending,
             dir := s.dir - old', expired := s.expired + old');
    assert s'.dir == dir';
    forall n | n in s'.resumed ensures exists c :: c in cmds && c.file == n {
      assert Cmd(s.dir[n].content, n) in cmds;
    }
  }

  /** One command of the listing, run to its end: its file goes exactly when the method takes it away. */
  lemma ResumingIsSteps(o: Options, s: Sys, n: Name, ok: bool, sent: bool, io: bool)
    returns (tr: seq<Sys>, acts: seq<Action>)
    requires n in s.resumed && s.resumed[n] == Pending
    ensures Steps(o, tr, acts) && tr[0] == s
    ensures var last := tr[|tr| - 1];
            && last.dir == (if (ok || sent) && io then s.dir - {n} else s.dir)
            && last.calls == s.calls && last.held == s.held && last.resumed == s.resumed[n := Stopped]
  {
    var ran := s.(resumed := s.resumed[n := if ok || sent then Finishing else Stopped]);
    assert ResumeStep(s, n, ok, sent, ran);
    tr, acts := [s, ran], [Resume(n, ok, sent)];
    if ok || sent {
      var stopped := ran.(resumed := ran.resumed[n := Stopped]);
      var last := if io && n in ran.dir then stopped.(dir := ran.dir - {n}, finished := ran.finished + {n})
                  else stopped;
      assert ResumeFinishStep(ran, n, io, last);
      tr, acts := StepsThen(o, tr, acts, ResumeFinish(n, io), last);
      assert n !in s.dir ==> s.dir - {n} == s.dir;
    }
  }
}
