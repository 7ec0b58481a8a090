/** Why a crash loses no registered command: what the resume directory holds in every reachable state. */
module CrashSafety {
  import opened Domain
  import opened Deduplication
  import opened ResumeFiles
  import opened RunMachine

  ghost predicate HoldsFile(s: Sys, p: Pid, n: Name) {
    p in s.calls && s.calls[p].FileOf() == Some(n)
  }

  /** The command was registered under this name, and not unregistered or given up as too old. */
  ghost predicate Kept(s: Sys, n: Name) {
    n in s.registered && n !in s.finished && n !in s.expired
  }

  /** What holds of each name. Names drawn carry a reading no later than the latest, and within this run of the
      process a number already used, so the next name is new; a kept command is in its file, whole. */
  ghost predicate NameOk(s: Sys, n: Name) {
    && (n in s.drawn ==> n.Flag? && n.nanos <= s.high && (n.nanos <= s.floor || n.number <= s.number))
    && (n in s.dir && n.Flag? ==> n in s.drawn)
    && (n in s.registered ==> n in s.drawn)
    && (n in s.finished || n in s.expired ==> n !in s.dir && (n.Flag? ==> n in s.drawn))
    && (n in s.resumed && n.Flag? ==> n.nanos <= s.floor)
    && (Kept(s, n) ==> n in s.dir && s.dir[n].File? && s.dir[n].content == s.registered[n])
  }

  /** A call with a file has one of this run's names, still in use; once past registration, registered under the
      call's command. */
  ghost predicate OwnerOk(s: Sys, p: Pid, n: Name) {
    HoldsFile(s, p, n) ==>
      && n in s.drawn && n.Flag? && n.nanos > s.floor && n !in s.finished && n !in s.expired
      && if s.calls[p].Registered() then n in s.registered && s.registered[n] == s.calls[p].cmd
         else n !in s.registered
  }

  ghost predicate SoleOwner(s: Sys, p: Pid, q: Pid, n: Name) {
    HoldsFile(s, p, n) && HoldsFile(s, q, n) ==> p == q
  }

  ghost predicate Inv(s: Sys) {
    && s.floor <= s.high && (!s.up ==> s.floor == s.high && s.calls == map[])
    && (forall n :: NameOk(s, n))
    && (forall p, n :: OwnerOk(s, p, n))
    && (forall p, q, n :: SoleOwner(s, p, q, n))
  }

  // ----- each step, for one name -----

  lemma DrawKeepsName(o: Options, s: Sys, p: Pid, nanos: int, s': Sys, n: Name)
    requires s.floor <= s.high && NameOk(s, n) && DrawStep(o, s, p, nanos, s')
    ensures NameOk(s', n)
  {
  }

  lemma WritePartKeepsName(s: Sys, p: Pid, content: string, modTime: Time, s': Sys, n: Name)
    requires NameOk(s, n) && WritePartStep(s, p, content, modTime, s') && OwnerOk(s, p, s.calls[p].at.name)
    ensures NameOk(s', n)
  {
    assert HoldsFile(s, p, s.calls[p].at.name);
  }

  lemma WriteEndKeepsName(s: Sys, p: Pid, ok: bool, modTime: Time, s': Sys, n: Name)
    requires NameOk(s, n) && WriteEndStep(s, p, ok, modTime, s') && OwnerOk(s, p, s.calls[p].at.name)
    ensures NameOk(s', n)
  {
    assert HoldsFile(s, p, s.calls[p].at.name);
  }

  lemma UnregisterKeepsName(s: Sys, p: Pid, io: bool, s': Sys, n: Name)
    requires NameOk(s, n) && UnregisterStep(s, p, io, s')
    ensures NameOk(s', n)
  {
  }

  lemma ResumedKeepsName(s: Sys, m: Name, io: bool, s': Sys, n: Name)
    requires NameOk(s, n) && ResumeFinishStep(s, m, io, s')
    ensures NameOk(s', n)
  {
  }

  lemma RestartKeepsName(o: Options, s: Sys, a: Action, s': Sys, n: Name)
    requires (!s.up ==> s.floor == s.high) && NameOk(s, n) && Next(o, s, a, s')
    requires a.Crash? || a.Boot?
    ensures NameOk(s', n)
  {
  }

  /** The steps that only move a call, or a resumed command, leave every name as it was. */
  lemma QuietKeepsName(o: Options, s: Sys, a: Action, s': Sys, n: Name)
    requires NameOk(s, n) && Next(o, s, a, s')
    requires a.Arrive? || a.Take? || a.Execute? || a.Notify? || a.Release? || a.Resume?
    ensures NameOk(s', n)
  {
    assert s'.dir == s.dir && s'.registered == s.registered && s'.drawn == s.drawn && s'.number == s.number;
  }

  lemma NextKeepsName(o: Options, s: Sys, a: Action, s': Sys, n: Name)
    requires Inv(s) && Next(o, s, a, s')
    ensures NameOk(s', n)
  {
    assert NameOk(s, n);
    match a
    case Draw(p, nanos) => DrawKeepsName(o, s, p, nanos, s', n);
    case WritePart(p, content, modTime) =>
      assert OwnerOk(s, p, s.calls[p].at.name);
      WritePartKeepsName(s, p, content, modTime, s', n);
    case WriteEnd(p, ok, modTime) =>
      assert OwnerOk(s, p, s.calls[p].at.name);
      WriteEndKeepsName(s, p, ok, modTime, s', n);
    case Unregister(p, io) => UnregisterKeepsName(s, p, io, s', n);
    case ResumeFinish(m, io) => ResumedKeepsName(s, m, io, s', n);
    case Crash => RestartKeepsName(o, s, a, s', n);
    case Boot(_, _, _) => RestartKeepsName(o, s, a, s', n);
    case _ => QuietKeepsName(o, s, a, s', n);
  }

  // ----- each step, for one call and name -----

  lemma DrawKeepsOwner(o: Options, s: Sys, q: Pid, nanos: int, s': Sys, p: Pid, n: Name)
    requires NameOk(s, n) && OwnerOk(s, p, n) && DrawStep(o, s, q, nanos, s')
    ensures OwnerOk(s', p, n)
    ensures HoldsFile(s', p, n) ==> HoldsFile(s, p, n) || (p == q && n !in s.drawn)
  {
    assert p != q && p in s.calls ==> s'.calls[p] == s.calls[p];
  }

  lemma WriteEndKeepsOwner(s: Sys, q: Pid, ok: bool, modTime: Time, s': Sys, p: Pid, n: Name)
    requires OwnerOk(s, p, n) && SoleOwner(s, p, q, n) && WriteEndStep(s, q, ok, modTime, s')
    ensures OwnerOk(s', p, n)
    ensures HoldsFile(s', p, n) ==> HoldsFile(s, p, n)
  {
    assert HoldsFile(s, q, s.calls[q].at.name);
    assert p != q && p in s.calls ==> s'.calls[p] == s.calls[p];
  }

  lemma UnregisterKeepsOwner(s: Sys, q: Pid, io: bool, s': Sys, p: Pid, n: Name)
    requires OwnerOk(s, p, n) && SoleOwner(s, p, q, n) && UnregisterStep(s, q, io, s')
    ensures OwnerOk(s', p, n)
    ensures HoldsFile(s', p, n) ==> HoldsFile(s, p, n)
  {
    assert s.calls[q].at.file.Some? ==> HoldsFile(s, q, s.calls[q].at.file.value);
    assert p != q && p in s.calls ==> s'.calls[p] == s.calls[p];
  }

  lemma ResumedKeepsOwner(o: Options, s: Sys, a: Action, s': Sys, p: Pid, n: Name)
    requires (!s.up ==> s.calls == map[]) && NameOk(s, n) && OwnerOk(s, p, n) && Next(o, s, a, s')
    requires a.Resume? || a.ResumeFinish? || a.Crash? || a.Boot?
    ensures OwnerOk(s', p, n)
    ensures HoldsFile(s', p, n) ==> HoldsFile(s, p, n)
  {
  }

  lemma TakeKeepsOwner(o: Options, s: Sys, q: Pid, s': Sys, p: Pid, n: Name)
    requires OwnerOk(s, p, n) && TakeStep(o, s, q, s')
    ensures OwnerOk(s', p, n)
    ensures HoldsFile(s', p, n) ==> HoldsFile(s, p, n)
  {
    assert p != q && p in s.calls ==> s'.calls[p] == s.calls[p];
  }

  lemma ReleaseKeepsOwner(o: Options, s: Sys, q: Pid, s': Sys, p: Pid, n: Name)
    requires OwnerOk(s, p, n) && ReleaseStep(o, s, q, s')
    ensures OwnerOk(s', p, n)
    ensures HoldsFile(s', p, n) ==> HoldsFile(s, p, n)
  {
    assert p != q && p in s.calls ==> s'.calls[p] == s.calls[p];
  }

  lemma ArriveKeepsOwner(s: Sys, q: Pid, cmd: string, spec: string, resolves: bool, s': Sys, p: Pid, n: Name)
    requires OwnerOk(s, p, n) && ArriveStep(s, q, cmd, spec, resolves, s')
    ensures OwnerOk(s', p, n)
    ensures HoldsFile(s', p, n) ==> HoldsFile(s, p, n)
  {
    assert p != q && p in s.calls ==> s'.calls[p] == s.calls[p];
  }

  lemma WorkKeepsOwner(o: Options, s: Sys, a: Action, s': Sys, p: Pid, n: Name)
    requires OwnerOk(s, p, n) && Next(o, s, a, s')
    requires a.WritePart? || a.Execute? || a.Notify?
    ensures OwnerOk(s', p, n)
    ensures HoldsFile(s', p, n) ==> HoldsFile(s, p, n)
  {
    assert p != a.p && p in s.calls ==> s'.calls[p] == s.calls[p];
  }

  /** A call keeps its file or lets it go; only the draw gives one, and it was never used before. */
  lemma NextKeepsOwner(o: Options, s: Sys, a: Action, s': Sys, p: Pid, n: Name)
    requires Inv(s) && Next(o, s, a, s')
    ensures OwnerOk(s', p, n)
    ensures HoldsFile(s', p, n) ==> HoldsFile(s, p, n) || (a.Draw? && a.p == p && n !in s.drawn)
  {
    assert NameOk(s, n) && OwnerOk(s, p, n);
    match a
    case Draw(q, nanos) => DrawKeepsOwner(o, s, q, nanos, s', p, n);
    case WriteEnd(q, ok, modTime) =>
      assert SoleOwner(s, p, q, n);
      WriteEndKeepsOwner(s, q, ok, modTime, s', p, n);
    case Unregister(q, io) =>
      assert SoleOwner(s, p, q, n);
      UnregisterKeepsOwner(s, q, io, s', p, n);
    case Resume(_, _, _) => ResumedKeepsOwner(o, s, a, s', p, n);
    case ResumeFinish(_, _) => ResumedKeepsOwner(o, s, a, s', p, n);
    case Crash => ResumedKeepsOwner(o, s, a, s', p, n);
    case Boot(_, _, _) => ResumedKeepsOwner(o, s, a, s', p, n);
    case Arrive(q, cmd, spec, resolves) => ArriveKeepsOwner(s, q, cmd, spec, resolves, s', p, n);
    case Take(q) => TakeKeepsOwner(o, s, q, s', p, n);
    case Release(q) => ReleaseKeepsOwner(o, s, q, s', p, n);
    case WritePart(_, _, _) => WorkKeepsOwner(o, s, a, s', p, n);
    case Execute(_, _) => WorkKeepsOwner(o, s, a, s', p, n);
    case Notify(_, _) => WorkKeepsOwner(o, s, a, s', p, n);
  }

  lemma NextKeepsClock(o: Options, s: Sys, a: Action, s': Sys)
    requires s.floor <= s.high && (!s.up ==> s.floor == s.high && s.calls == map[]) && Next(o, s, a, s')
    ensures s'.floor <= s'.high && (!s'.up ==> s'.floor == s'.high && s'.calls == map[])
  {
    if !a.Crash? && !a.Boot? && !a.Draw? {
      assert s'.up == s.up && s'.floor == s.floor && s'.high == s.high;
    }
  }

  lemma NextKeepsInv(o: Options, s: Sys, a: Action, s': Sys)
    requires Inv(s) && Next(o, s, a, s')
    ensures Inv(s')
  {
    NextKeepsClock(o, s, a, s');
    forall n ensures NameOk(s', n) { NextKeepsName(o, s, a, s', n); }
    forall p, n ensures OwnerOk(s', p, n) { NextKeepsOwner(o, s, a, s', p, n); }
    forall p, q, n ensures SoleOwner(s', p, q, n) {
      NextKeepsOwner(o, s, a, s', p, n);
      NextKeepsOwner(o, s, a, s', q, n);
      assert SoleOwner(s, p, q, n) && OwnerOk(s, p, n) && OwnerOk(s, q, n);
    }
  }

  lemma {:induction false} ReachableInv(o: Options, tr: seq<Sys>, acts: seq<Action>, i: nat)
    requires Execution(o, tr, acts) && i < |tr|
    ensures Inv(tr[i])
  {
    if i > 0 {
      ReachableInv(o, tr, acts, i - 1);
      NextKeepsInv(o, tr[i - 1], acts[i - 1], tr[i]);
    }
  }

  // ----- the theorems -----

  /** In every reachable state each call past OnStart and not past OnFinish has a file of its own that holds exactly
      its resolved command, and no file is left of a command whose OnFinish succeeded. */
  lemma EachRunOwnsItsFile(o: Options, tr: seq<Sys>, acts: seq<Action>, i: nat, p: Pid)
    requires Execution(o, tr, acts) && i < |tr|
    requires p in tr[i].calls && tr[i].calls[p].Registered() && tr[i].calls[p].at.file.Some?
    ensures var n := tr[i].calls[p].at.file.value;
            && n in tr[i].dir && tr[i].dir[n].File? && tr[i].dir[n].content == tr[i].calls[p].cmd
            && (forall q :: q in tr[i].calls && tr[i].calls[q].FileOf() == Some(n) ==> q == p)
    ensures tr[i].finished !! tr[i].dir.Keys
  {
    ReachableInv(o, tr, acts, i);
    var s, n := tr[i], tr[i].calls[p].at.file.value;
    assert OwnerOk(s, p, n) && NameOk(s, n) && HoldsFile(s, p, n);
    forall q | q in s.calls && s.calls[q].FileOf() == Some(n) ensures q == p {
      assert SoleOwner(s, p, q, n) && HoldsFile(s, q, n);
    }
    forall x | x in s.finished ensures x !in s.dir {
      assert NameOk(s, x);
    }
  }

  /** A crash at any moment and the start after it, the resume mode on: what is resumed is exactly every command
      still kept whose file is at most a day old and readable, plus leftovers: files of an OnStart that the crash or
      a write error cut short, and files nobody registered. No command whose OnFinish succeeded comes back. */
  lemma RestartResumesWhatWasCut(o: Options, tr: seq<Sys>, acts: seq<Action>, i: nat, n: Name)
    requires Execution(o, tr, acts) && i < |acts| && acts[i].Boot? && o.resume
    ensures Kept(tr[i], n) ==> n in tr[i].dir && tr[i].dir[n].File?
    ensures Kept(tr[i], n) && acts[i].now <= tr[i].dir[n].modTime + 24 * 3600 * 1000000000
            && n !in acts[i].unreadable ==>
              n in tr[i + 1].resumed && tr[i + 1].dir[n].content == tr[i].registered[n]
    ensures n in tr[i + 1].resumed ==>
              && n !in tr[i + 1].finished && n in tr[i + 1].dir && tr[i + 1].dir[n].File?
              && (n in tr[i].registered ==> Kept(tr[i], n) && tr[i + 1].dir[n].content == tr[i].registered[n])
    ensures n in tr[i + 1].expired && n !in tr[i].expired ==>
              n in tr[i].dir && tr[i].dir[n].File? && acts[i].now > tr[i].dir[n].modTime + 24 * 3600 * 1000000000
  {
    ReachableInv(o, tr, acts, i);
    assert BootStep(o, tr[i], acts[i].now, acts[i].unreadable, acts[i].undeletable, tr[i + 1]);
    assert NameOk(tr[i], n);
  }

  /** The three steps that end a kept command: its own call's OnFinish, its resumed run's, and a restart that finds its
      file more than a day old. */
  ghost predicate Ends(s: Sys, a: Action, n: Name) {
    || (a.Unregister? && a.p in s.calls && s.calls[a.p].at == Unregistering(Some(n))
        && n in s.registered && s.calls[a.p].cmd == s.registered[n])
    || (a.ResumeFinish? && a.n == n && n in s.resumed && s.resumed[n] == Finishing)
    || (a.Boot? && n in s.dir && s.dir[n].File? && a.now > s.dir[n].modTime + 24 * 3600 * 1000000000)
  }

  lemma StepEndsIt(o: Options, s: Sys, a: Action, s': Sys, n: Name)
    requires Inv(s) && Next(o, s, a, s')
    ensures Kept(s, n) && !Kept(s', n) ==> Ends(s, a, n)
  {
    assert NameOk(s, n);
    if a.Unregister? {
      assert OwnerOk(s, a.p, n);
      assert HoldsFile(s, a.p, n) <==> s.calls[a.p].at == Unregistering(Some(n));
    }
  }

  lemma {:induction false} WhereItEnds(tr: seq<Sys>, i: nat, j: nat, n: Name) returns (k: nat)
    requires i <= j < |tr| && Kept(tr[i], n) && !Kept(tr[j], n)
    ensures i <= k < j && Kept(tr[k], n) && !Kept(tr[k + 1], n)
    decreases j - i
  {
    if Kept(tr[j - 1], n) {
      k := j - 1;
    } else {
      k := WhereItEnds(tr, i, j - 1, n);
    }
  }

  /** A command registered in any state stays kept until one of those steps ends it; no other, crash included, loses
      it, however long the run goes on. */
  lemma OnlyFinishingEndsIt(o: Options, tr: seq<Sys>, acts: seq<Action>, i: nat, j: nat, n: Name) returns (k: nat)
    requires Execution(o, tr, acts) && i <= j < |tr|
    ensures Kept(tr[i], n) && !Kept(tr[j], n) ==> i <= k < j && Kept(tr[k], n) && Ends(tr[k], acts[k], n)
  {
    k := i;
    if Kept(tr[i], n) && !Kept(tr[j], n) {
      k := WhereItEnds(tr, i, j, n);
      ReachableInv(o, tr, acts, k);
      StepEndsIt(o, tr[k], acts[k], tr[k + 1], n);
    }
  }

  /** With the resume mode on, a call past OnStart has a file. */
  ghost predicate FiledIff(o: Options, s: Sys, p: Pid) {
    p in s.calls && s.calls[p].Registered() ==> (s.calls[p].at.file.Some? <==> o.resume)
  }

  lemma MoveKeepsFiled(o: Options, s: Sys, a: Action, s': Sys, p: Pid)
    requires FiledIff(o, s, p) && (p in s.calls && s.calls[p].at.Writing? ==> o.resume) && Next(o, s, a, s')
    requires a.Draw? || a.WriteEnd? || a.Execute? || a.Notify? || a.Unregister?
    ensures FiledIff(o, s', p) && (p in s'.calls && s'.calls[p].at.Writing? ==> o.resume)
  {
    assert p != a.p && p in s.calls ==> s'.calls[p] == s.calls[p];
  }

  lemma NextKeepsFiled(o: Options, s: Sys, a: Action, s': Sys, p: Pid)
    requires FiledIff(o, s, p) && (p in s.calls && s.calls[p].at.Writing? ==> o.resume) && Next(o, s, a, s')
    ensures FiledIff(o, s', p) && (p in s'.calls && s'.calls[p].at.Writing? ==> o.resume)
  {
    if a.Draw? || a.WriteEnd? || a.Execute? || a.Notify? || a.Unregister? {
      MoveKeepsFiled(o, s, a, s', p);
    } else if a.Take? || a.Release? || a.Arrive? {
      assert p != a.p && p in s.calls ==> s'.calls[p] == s.calls[p];
    }
  }

  lemma {:induction false} ReachableFiled(o: Options, tr: seq<Sys>, acts: seq<Action>, i: nat, p: Pid)
    requires Execution(o, tr, acts) && i < |tr|
    ensures FiledIff(o, tr[i], p) && (p in tr[i].calls && tr[i].calls[p].at.Writing? ==> o.resume)
  {
    if i > 0 {
      ReachableFiled(o, tr, acts, i - 1, p);
      NextKeepsFiled(o, tr[i - 1], acts[i - 1], tr[i], p);
    }
  }

  lemma OnlyBootFollowsCrash(o: Options, s: Sys, m: Sys, a: Action, s': Sys)
    requires CrashStep(s, m) && Next(o, m, a, s')
    ensures a.Boot?
    ensures m.dir == s.dir && m.registered == s.registered && m.finished == s.finished && m.expired == s.expired
  {
  }

  /** The process dies at any moment while a command is past OnStart and not past OnFinish: the next thing that can
      happen is a start, and it resumes exactly that command, unless its file cannot be read or a day has passed. */
  lemma CrashLosesNothing(o: Options, tr: seq<Sys>, acts: seq<Action>, i: nat, p: Pid)
    requires Execution(o, tr, acts) && i + 1 < |acts| && acts[i].Crash? && o.resume
    requires p in tr[i].calls && tr[i].calls[p].Registered()
    ensures acts[i + 1].Boot? && tr[i].calls[p].at.file.Some?
    ensures var n := tr[i].calls[p].at.file.value;
            && n in tr[i + 1].dir && tr[i + 1].dir[n].File?
            && (acts[i + 1].now <= tr[i + 1].dir[n].modTime + 24 * 3600 * 1000000000
                && n !in acts[i + 1].unreadable ==>
                  n in tr[i + 2].resumed && n in tr[i + 2].dir && tr[i + 2].dir[n].File?
                  && tr[i + 2].dir[n].content == tr[i].calls[p].cmd)
  {
    var s, m, s' := tr[i], tr[i + 1], tr[i + 2];
    assert Next(o, s, acts[i], m) && Next(o, m, acts[i + 1], s');
    OnlyBootFollowsCrash(o, s, m, acts[i + 1], s');
    ReachableFiled(o, tr, acts, i, p);
    ReachableInv(o, tr, acts, i);
    var n := s.calls[p].at.file.value;
    assert HoldsFile(s, p, n) && OwnerOk(s, p, n);
    RestartResumesWhatWasCut(o, tr, acts, i + 1, n);
  }

  // ----- a run that failed -----

  /** Whoever holds the file has run its command without success, so nobody is on the way to unregister it. */
  ghost predicate OnlyFailedHold(s: Sys, n: Name) {
    n in s.drawn && forall p :: HoldsFile(s, p, n) ==> s.calls[p].at == Executed(Some(n), false)
  }

  lemma MovesOn(o: Options, s: Sys, a: Action, s': Sys, p: Pid, n: Name)
    requires Next(o, s, a, s') && HoldsFile(s, p, n) && HoldsFile(s', p, n)
    requires s.calls[p].at == Executed(Some(n), false)
    ensures s'.calls[p].at == Executed(Some(n), false)
  {
    if a.Notify? {
      assert NotifyStep(s, a.p, a.sent, s');
    } else if a.Execute? {
      assert ExecuteStep(s, a.p, a.ok, s');
    }
  }

  lemma NextKeepsFailed(o: Options, s: Sys, a: Action, s': Sys, n: Name)
    requires Inv(s) && Next(o, s, a, s') && OnlyFailedHold(s, n)
    ensures OnlyFailedHold(s', n)
  {
    assert n in s'.drawn by { DrawnStays(o, s, a, s', n); }
    forall p | HoldsFile(s', p, n) ensures s'.calls[p].at == Executed(Some(n), false) {
      NextKeepsOwner(o, s, a, s', p, n);
      MovesOn(o, s, a, s', p, n);
    }
  }

  lemma DrawnStays(o: Options, s: Sys, a: Action, s': Sys, n: Name)
    requires Next(o, s, a, s') && n in s.drawn
    ensures n in s'.drawn
  {
    if !a.Draw? {
      assert s'.drawn == s.drawn;
    }
  }

  lemma {:induction false} WhereItMovesOn(tr: seq<Sys>, i: nat, j: nat, n: Name) returns (k: nat)
    requires i <= j < |tr| && OnlyFailedHold(tr[i], n) && !OnlyFailedHold(tr[j], n)
    ensures i <= k < j && OnlyFailedHold(tr[k], n) && !OnlyFailedHold(tr[k + 1], n)
    decreases j - i
  {
    if OnlyFailedHold(tr[j - 1], n) {
      k := j - 1;
    } else {
      k := WhereItMovesOn(tr, i, j - 1, n);
    }
  }

  lemma StaysFailed(o: Options, tr: seq<Sys>, acts: seq<Action>, i: nat, j: nat, n: Name)
    requires Execution(o, tr, acts) && i <= j < |tr| && OnlyFailedHold(tr[i], n)
    ensures OnlyFailedHold(tr[j], n)
  {
    if !OnlyFailedHold(tr[j], n) {
      var k := WhereItMovesOn(tr, i, j, n);
      ReachableInv(o, tr, acts, k);
      NextKeepsFailed(o, tr[k], acts[k], tr[k + 1], n);
    }
  }

  lemma FailureHolds(o: Options, s: Sys, p: Pid, s': Sys)
    requires Inv(s) && ExecuteStep(s, p, false, s') && s.calls[p].at.file.Some?
    ensures OnlyFailedHold(s', s.calls[p].at.file.value)
  {
    var n := s.calls[p].at.file.value;
    assert HoldsFile(s, p, n) && OwnerOk(s, p, n);
    forall q | HoldsFile(s', q, n) ensures s'.calls[q].at == Executed(Some(n), false) {
      assert q == p || HoldsFile(s, q, n);
      assert SoleOwner(s, p, q, n);
    }
  }

  /** A command that fails keeps its file: whatever happens afterwards, notified or not, only its own resumed run or a
      restart more than a day later takes it away. */
  lemma FailedRunIsKept(o: Options, tr: seq<Sys>, acts: seq<Action>, i: nat, j: nat, p: Pid, n: Name)
    returns (k: nat)
    requires Execution(o, tr, acts) && i < |acts| && i < j < |tr| && acts[i] == Execute(p, false)
    requires p in tr[i].calls && tr[i].calls[p].at == Executing(Some(n))
    ensures Kept(tr[i + 1], n)
    ensures !Kept(tr[j], n) ==> i < k < j && (acts[k].ResumeFinish? || acts[k].Boot?)
    ensures !Kept(tr[j], n) && acts[k].ResumeFinish? ==> acts[k].n == n
    ensures !Kept(tr[j], n) && acts[k].Boot? ==>
              n in tr[k].dir && tr[k].dir[n].File? && acts[k].now > tr[k].dir[n].modTime + 24 * 3600 * 1000000000
  {
    ReachableInv(o, tr, acts, i);
    assert Next(o, tr[i], acts[i], tr[i + 1]);
    FailureHolds(o, tr[i], p, tr[i + 1]);
    assert HoldsFile(tr[i], p, n) && OwnerOk(tr[i], p, n);
    k := i;
    if !Kept(tr[j], n) {
      k := OnlyFinishingEndsIt(o, tr, acts, i + 1, j, n);
      StaysFailed(o, tr, acts, i + 1, k, n);
      if acts[k].Unregister? {
        assert HoldsFile(tr[k], acts[k].p, n);
      }
    }
  }
}
