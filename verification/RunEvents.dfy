/** Where scheduler and dashboard meet: the events a run sends are steps that the run tracking protocol allows. */
module RunEvents {
  import opened Domain
  import opened Protocol
  import Scheduling
  import RunMachine

  /** No run of this key is known yet. */
  ghost predicate IsNew(s: World, key: RunKey) {
    key !in s.runs && !HasRow(s.ever, key)
  }

  /** Nobody but the run's own goroutine sends its finish. */
  ghost predicate NobodyEnds(acts: seq<Action>, key: RunKey) {
    forall i :: 0 <= i < |acts| && acts[i].End? ==> acts[i].e.Key() != key
  }

  lemma StepLeavesBegun(c: Config, s: World, a: Action, s': World, key: RunKey)
    requires Next(c, s, a, s') && (a.End? ==> a.e.Key() != key)
    requires key in s.runs && s.runs[key].Begun?
    ensures key in s'.runs && s'.runs[key] == s.runs[key]
  {
    if a.Begin? {
      assert BeginStep(s, a.e, s');
    } else if a.End? {
      assert EndStep(s, a.e, s');
    } else {
      OthersSendNothing(c, s, a, s');
    }
  }

  lemma {:induction false} StaysBegun(c: Config, tr: seq<World>, acts: seq<Action>, key: RunKey)
    requires Steps(c, tr, acts) && NobodyEnds(acts, key)
    requires key in tr[0].runs && tr[0].runs[key].Begun?
    ensures key in tr[|acts|].runs && tr[|acts|].runs[key] == tr[0].runs[key]
    decreases |acts|
  {
    if acts != [] {
      var n := |acts| - 1;
      StaysBegun(c, tr[..n + 1], acts[..n], key);
      StepLeavesBegun(c, tr[n], acts[n], tr[n + 1], key);
    }
  }

  function Offered(s: World, e: Event, phase: Phase): (s': World)
    ensures Offer(s, e, phase, s')
  {
    var sent := s.(runs := s.runs[e.Key() := phase]);
    if HasRoom(s) then sent.(queue := s.queue + [e], accepted := s.accepted + [e]) else sent
  }

  /** What RunJobWithCommand sends, if anything: its first event is a start the protocol takes in any state where the
      run is new, full channel or not; and whatever is interleaved after that, its second is the run's finish, and the
      protocol takes that too. */
  lemma RunSendsStartThenFinish(c: Config, hasHandler: bool, command: string, spec: string, executed: string,
                                env: Scheduling.Env, out: RunMachine.Outcome, before: World, between: seq<Action>)
    requires Scheduling.EventsOf(hasHandler, command, spec, executed, env, out) != []
    requires IsNew(before, RunKey(HashCommand(command), Micro(env.startTime)))
    requires NobodyEnds(between, RunKey(HashCommand(command), Micro(env.startTime)))
    ensures var sent := Scheduling.EventsOf(hasHandler, command, spec, executed, env, out);
            && |sent| == 2
            && (exists s :: Next(c, before, Begin(sent[0]), s))
            && forall tr: seq<World> :: Steps(c, tr, between) && Next(c, before, Begin(sent[0]), tr[0]) ==>
                 exists s :: Next(c, tr[|between|], End(sent[1]), s)
  {
    Scheduling.EventsPair(hasHandler, command, spec, executed, env, out);
    var sent := Scheduling.EventsOf(hasHandler, command, spec, executed, env, out);
    var s := Offered(before, sent[0], Begun(HasRoom(before)));
    assert Next(c, before, Begin(sent[0]), s);
    forall tr: seq<World> | Steps(c, tr, between) && Next(c, before, Begin(sent[0]), tr[0])
      ensures exists s' :: Next(c, tr[|between|], End(sent[1]), s')
    {
      StaysBegun(c, tr, between, sent[0].Key());
      var last := tr[|between|];
      var s' := Offered(last, sent[1], Ended(last.runs[sent[1].Key()].startAccepted, HasRoom(last)));
      assert Next(c, last, End(sent[1]), s');
    }
  }
}
