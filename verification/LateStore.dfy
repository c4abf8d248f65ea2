// What goes wrong when fuzz_get_data runs on another thread than the vCPU (virtuals/fuzzer/fuzz.c:191-242):
// a run of FuzzLoop that ends with a DONE for a message nobody took.
module LateStore {
  import opened Snapshot
  import opened FuzzLoop

  /** A run and the state it leads to. */
  ghost predicate Leads(s0: State, evs: seq<Event>, s: State) {
    Shape(s0) && Shape(s) && s == Run(s0, evs) && forall e | e in evs :: NonZero(e)
  }

  /** One more step of a run given by its events so far. */
  lemma Then(s0: State, evs: seq<Event>, s: State, ev: Event) returns (evs': seq<Event>, s': State)
    requires Leads(s0, evs, s) && NonZero(ev)
    ensures Leads(s0, evs', s') && s' == Step(s, ev)
  {
    hide Step, Shape;
    evs', s' := evs + [ev], Step(s, ev);
    Next(s0, evs, ev);
  }

  /** What the getters left behind is the same. */
  predicate SameWins(s: State, s': State) {
    s'.getters == s.getters && s'.wins == s.wins && s'.activation == s.activation
  }

  /** Firmware reaches the sync point and the vCPU thread is about to exchange the state. */
  lemma ReachSwap(s0: State, evs: seq<Event>, s: State) returns (evs': seq<Event>, s': State)
    requires Leads(s0, evs, s) && s.sync.Running? && !s.msg.Consuming?
    ensures Leads(s0, evs', s') && s' == s.(sync := DeactSwap)
  {
    hide Leads, Capture, Matches, SameCore, ZeroMap, ValidMachine;
    evs', s' := Then(s0, evs, s, SyncHit);
    assert s'.sync.DeactWait?;
    evs', s' := Then(s0, evs', s', SyncTurn);
  }

  /** The exchange did not find READY: the previous message is completed and a frame awaited. */
  lemma AskAgain(s0: State, evs: seq<Event>, s: State) returns (evs': seq<Event>, s': State)
    requires Leads(s0, evs, s) && s.sync.DeactSwap? && !s.msg.Ready?
    ensures Leads(s0, evs', s') && SameWins(s, s')
    ensures s'.sync.Reading? && s'.msg.Inactive? && s'.activeSeq == 0 && s'.overwritten == s.overwritten
    ensures s'.log == s.log + if s.activeSeq == 0 then [] else
                                [Done(s.activeSeq, false, s.activation in s.wins, s.overwritten)]
  {
    hide Leads, Capture, Matches, SameCore, ZeroMap, ValidMachine;
    evs', s' := Then(s0, evs, s, SyncTurn);
    evs', s' := Then(s0, evs', s', SyncTurn);
    assert s'.sync.AskNext? && s'.log == s.log && SameWins(s, s');
    evs', s' := Then(s0, evs', s', SyncTurn);
  }

  /** An input is read and armed. */
  lemma ReadAndArm(s0: State, evs: seq<Event>, s: State, number: nat) returns (evs': seq<Event>, s': State)
    requires Leads(s0, evs, s) && s.sync.Reading? && s.msg.Inactive? && number != 0
    ensures Leads(s0, evs', s') && s'.getters == s.getters && s'.wins == s.wins
    ensures s'.sync.Running? && s'.msg.Ready? && s'.activeSeq == number && s'.activation == s.activation + 1
    ensures !s'.overwritten
  {
    hide Leads, Capture, Matches, SameCore, ZeroMap, ValidMachine;
    evs', s' := Then(s0, evs, s, Incoming(Input(number, [])));
    assert s'.sync.ArmWait? && s'.msg.Inactive? && SameWins(s, s') && s'.activeSeq == number;
    evs', s' := Then(s0, evs', s', SyncTurn);
    evs', s' := Then(s0, evs', s', SyncTurn);
  }

  /** A getter wins the message at hand. */
  lemma Win(s0: State, evs: seq<Event>, s: State, thread: nat) returns (evs': seq<Event>, s': State)
    requires Leads(s0, evs, s) && s.msg.Ready? && thread !in s.getters
    ensures Leads(s0, evs', s') && s'.sync == s.sync && s'.msg.Consuming? && s'.activeSeq == s.activeSeq
    ensures s'.activation == s.activation && s'.wins == s.wins + [s.activation] && thread in s'.getters
  {
    hide Leads, Capture, Matches, SameCore, ZeroMap, ValidMachine, SyncStep, Complete;
    evs', s' := Then(s0, evs, s, Attempt(thread));
  }

  /** A getter stores CONSUMED over a READY message that is not the one it copied. */
  lemma StoreLate(s0: State, evs: seq<Event>, s: State, thread: nat) returns (evs': seq<Event>, s': State)
    requires Leads(s0, evs, s) && s.msg.Ready? && thread in s.getters
    ensures Leads(s0, evs', s') && s'.sync == s.sync && s'.msg.Consumed? && s'.overwritten
    ensures s'.activeSeq == s.activeSeq && s'.activation == s.activation && s'.wins == s.wins
  {
    hide Leads, Capture, Matches, SameCore, ZeroMap, ValidMachine, SyncStep, Complete;
    evs', s' := Then(s0, evs, s, FinishCopy(thread));
  }

  /** The discipline matters: with fuzz_get_data on another thread a DONE can be sent for a message
      that nobody took. A getter wins message 1 between the load and the exchange of the vCPU thread and
      ends its copy when message 2 is armed: its CONSUMED store removes message 2 unread. */
  lemma UntakenMessageIsDone(at: Machine, policy: Policy) returns (evs: seq<Event>, k: nat)
    requires ValidMachine(at) && Pairs(policy.ranges)
    ensures forall e | e in evs :: NonZero(e)
    ensures k < |Run(Init(at, policy), evs).log|
    ensures Run(Init(at, policy), evs).log[k] == Done(2, false, false, true)
  {
    hide Step, Shape, ValidMachine, Pairs;
    var s0, s := Init(at, policy), Init(at, policy);
    evs := [];
    assert Leads(s0, evs, s);
    evs, s := ReachSwap(s0, evs, s);
    evs, s := AskAgain(s0, evs, s);
    evs, s := ReadAndArm(s0, evs, s, 1);
    evs, s := ReachSwap(s0, evs, s);
    evs, s := Win(s0, evs, s, 7);
    evs, s := AskAgain(s0, evs, s);
    evs, s := ReadAndArm(s0, evs, s, 2);
    evs, s := StoreLate(s0, evs, s, 7);
    evs, s := ReachSwap(s0, evs, s);
    evs, s := AskAgain(s0, evs, s);
    k := |s.log| - 1;
  }
}
