// The globals of the fuzzing plugin and the functions that update them (virtuals/fuzzer/fuzz.c:174-242,
// 831-888; fuzz_aflnet.c:193-281), run one after the other on the vCPU thread. Each method is proved
// to take exactly the steps of FuzzLoop.
module FuzzPlugin {
  import opened Snapshot
  import opened FuzzLoop

  /** The frames a sequence of steps read. */
  function Frames(evs: seq<Event>): seq<Frame> {
    if evs == [] then []
    else
      var last := evs[|evs| - 1];
      Frames(evs[..|evs| - 1]) + if last.Incoming? then [last.frame] else []
  }

  lemma FramesGrow(evs: seq<Event>, ev: Event)
    ensures Frames(evs + [ev]) == Frames(evs) + if ev.Incoming? then [ev.frame] else []
  {
    assert (evs + [ev])[..|evs|] == evs;
  }

  /** What goes over the socket. */
  datatype Reply = DoneReply(number: nat) | RestoreDoneReply

  function Replies(log: seq<Item>): seq<Reply> {
    if log == [] then []
    else
      var last := log[|log| - 1];
      Replies(log[..|log| - 1]) +
      match last
      case Done(number, _, _, _) => [DoneReply(number)]
      case RestoreDone(_) => [RestoreDoneReply]
      case _ => []
  }

  lemma RepliesGrow(log: seq<Item>, item: Item)
    ensures Replies(log + [item]) ==
            Replies(log) + if item.Done? then [DoneReply(item.number)] else if item.RestoreDone? then [RestoreDoneReply] else []
  {
    assert (log + [item])[..|log|] == log;
  }

  // ----- what a few steps in a row come to -----

  lemma DeactivateSteps(s: State)
    requires Shape(s) && s.sync.DeactWait? && !s.msg.Consuming?
    ensures Step(Step(s, SyncTurn), SyncTurn) == s.(sync := Synced(s.msg), msg := Inactive)
  {
    hide Capture, Restore, Matches, ZeroMap, ValidMachine, SameCore, Complete;
  }

  lemma HitSteps(s: State)
    requires Shape(s) && s.sync.Running?
    ensures Step(s, SyncHit) == s.(sync := DeactWait)
  {
  }

  lemma SkipSteps(s: State)
    requires Shape(s) && s.sync.Synced? && !s.sync.seen.Ready?
    ensures Step(s, SyncTurn) == s.(sync := AskNext)
  {
  }

  lemma OtherSteps(s: State)
    requires Shape(s) && s.sync.Reading?
    ensures Step(s, Incoming(Other)) == s.(log := s.log + [GotOther])
  {
  }

  lemma ReactivateSteps(s: State)
    requires Shape(s) && s.sync == Synced(Ready) && s.msg.Inactive?
    ensures Step(Step(Step(s, SyncTurn), SyncTurn), SyncTurn) == s.(sync := Running, msg := Ready)
  {
    hide Capture, Restore, Matches, ZeroMap, ValidMachine, SameCore, Complete;
    assert Step(s, SyncTurn) == s.(sync := ReactWait);
    assert Step(Step(s, SyncTurn), SyncTurn) == s.(sync := ReactStore);
  }

  lemma RestoreSteps(s: State)
    requires Shape(s) && s.sync.Reading?
    ensures ValidMachine(s.machine) && ValidMachine(s.at) && SameCore(s.machine, s.at) && s.snap == Capture(s.at, s.policy)
    ensures var back := Restore(s.machine, s.snap, s.policy.special);
            && Matches(back, s.at, s.policy)
            && Step(Step(Step(s, Incoming(RestoreRequest)), SyncTurn), SyncTurn) ==
               s.(machine := back, clearNext := true, sync := AskNext,
                  log := s.log + [GotRestore] + [Restored] + [RestoreDone(back)])
  {
    hide Capture, Restore, Matches, ZeroMap, ValidMachine, SameCore, Complete;
    RestoreIsExact(s.at, s.machine, s.policy);
    assert Step(s, Incoming(RestoreRequest)) == s.(sync := Restoring, log := s.log + [GotRestore]);
  }

  lemma InputStep(s: State, number: nat, payload: seq<int>)
    requires Shape(s) && s.sync.Reading?
    ensures Step(s, Incoming(Input(number, payload))) ==
            s.(activeSeq := number, cvg := if s.clearNext then ZeroMap() else s.cvg, clearNext := false,
               sync := ArmWait, log := s.log + [GotInput(number)])
  {
    hide Capture, Restore, Matches, ZeroMap, ValidMachine, SameCore, Complete;
  }

  lemma ActivateSteps(s: State)
    requires Shape(s) && s.sync.ArmWait? && !s.msg.Consuming?
    ensures Step(Step(s, SyncTurn), SyncTurn) ==
            s.(msg := Ready, activation := s.activation + 1, overwritten := false, sync := Running,
               log := s.log + [Armed(s.activation + 1, s.cvg == ZeroMap())])
  {
    hide Capture, Restore, Matches, ZeroMap, ValidMachine, SameCore, Complete;
    assert Step(s, SyncTurn) == s.(sync := ArmStore);
  }

  lemma GetSteps(s: State)
    requires Shape(s) && s.msg.Ready? && s.getters == map[]
    ensures Step(Step(s, Attempt(0)), FinishCopy(0)) ==
            s.(msg := Consumed, wins := s.wins + [s.activation], log := s.log + [Won(s.activation)])
  {
    hide Capture, Restore, Matches, ZeroMap, ValidMachine, SameCore, Complete, SyncStep;
    var s' := Step(s, Attempt(0));
    assert s'.getters - {0} == map[];
  }

  /** Up to three more steps of a run, and the frames they read. */
  lemma Grow(s0: State, evs: seq<Event>, a: Event)
    requires Shape(s0)
    ensures Run(s0, evs + [a]) == Step(Run(s0, evs), a)
    ensures Frames(evs + [a]) == Frames(evs) + if a.Incoming? then [a.frame] else []
  {
    hide Step, Shape;
    Next(s0, evs, a);
    FramesGrow(evs, a);
  }

  lemma GrowThree(s0: State, evs: seq<Event>, a: Event)
    requires Shape(s0)
    ensures Run(s0, evs + [a] + [SyncTurn] + [SyncTurn]) == Step(Step(Step(Run(s0, evs), a), SyncTurn), SyncTurn)
    ensures Frames(evs + [a] + [SyncTurn] + [SyncTurn]) == Frames(evs) + if a.Incoming? then [a.frame] else []
  {
    hide Step, Shape;
    Grow(s0, evs, a);
    Grow(s0, evs + [a], SyncTurn);
    Grow(s0, evs + [a] + [SyncTurn], SyncTurn);
  }

  lemma NothingYet(s: State)
    requires Shape(s)
    ensures Run(s, []) == s && Frames([]) == []
  {
  }

  lemma {:induction false} Together(s0: State, evs: seq<Event>, more: seq<Event>)
    requires Shape(s0)
    ensures Run(s0, evs + more) == Run(Run(s0, evs), more)
    ensures Frames(evs + more) == Frames(evs) + Frames(more)
  {
    hide Step, Shape, Run, Frames;
    if more == [] {
      assert evs + more == evs;
      NothingYet(Run(s0, evs));
    } else {
      var init, last := more[..|more| - 1], more[|more| - 1];
      Together(s0, evs, init);
      assert evs + more == evs + init + [last] && more == init + [last];
      Grow(s0, evs + init, last);
      Grow(Run(s0, evs), init, last);
    }
  }

  class Plugin {
    const policy: Policy
    const at: Machine
    const cvg: array<int>
    var machine: Machine
    var msg: MsgState
    var data: seq<int>           // what g_active_msg_data and g_active_msg_len stand for
    var activeSeq: nat
    var clearNext: bool
    var sent: seq<Reply>
    ghost var sync: SyncPc
    ghost var log: seq<Item>
    ghost var activation: nat
    ghost var wins: seq<nat>
    ghost var overwritten: bool

    ghost predicate Valid()
      reads this, cvg
    {
      cvg.Length == MAP_SIZE && ValidMachine(at) && Pairs(policy.ranges) && Shape(Model()) && sent == Replies(log)
    }

    ghost function Model(): State
      requires ValidMachine(at) && Pairs(policy.ranges)
      reads this, cvg
    {
      State(policy, at, Capture(at, policy), machine, cvg[..], msg, activation, activeSeq, clearNext, sync,
            map[], wins, overwritten, log)
    }

    /** The snapshot point: the machine is captured and the observed values cleared. */
    constructor (guest: Machine, rules: Policy)
      requires ValidMachine(guest) && Pairs(rules.ranges)
      ensures Valid() && fresh(cvg) && at == guest && policy == rules
      ensures Model() == Init(guest, rules)
    {
      policy, at, machine := rules, guest, guest;
      cvg := new int[MAP_SIZE](_ => 0);
      msg, data, activeSeq, clearNext, sent := Inactive, [], 0, false, [];
      sync, log, activation, wins, overwritten := Running, [], 0, [], false;
      new;
      assert cvg[..] == ZeroMap();
    }

    /** observed_clear */
    method ObservedClear()
      requires cvg.Length == MAP_SIZE
      modifies cvg
      ensures cvg[..] == ZeroMap()
    {
      for i := 0 to cvg.Length
        invariant forall k | 0 <= k < i :: cvg[k] == 0
      {
        cvg[i] := 0;
      }
    }

    /** A message after a restore starts clean. */
    method ClearIfAsked()
      requires cvg.Length == MAP_SIZE
      modifies this`clearNext, cvg
      ensures !clearNext && cvg[..] == if old(clearNext) then ZeroMap() else old(cvg[..])
    {
      hide ZeroMap;
      if clearNext {
        ObservedClear();
        clearNext := false;
      }
    }

    /** fuzz_deactivate_message, entered while no copy is in progress. */
    method DeactivateMessage() returns (was: MsgState)
      requires Valid() && sync.DeactWait? && !msg.Consuming?
      modifies this`msg, this`sync
      ensures Valid() && was == old(msg) && msg.Inactive? && sync == Synced(was)
      ensures Model() == Step(Step(old(Model()), SyncTurn), SyncTurn)
    {
      hide Shape, Step, Capture, ValidMachine, Pairs;
      DeactivateSteps(Model());
      was := msg;
      msg, sync := Inactive, Synced(was);
    }

    /** complete_previous_message, then polling begins. */
    method CompletePrevious()
      requires Valid() && sync.AskNext?
      modifies this`activeSeq, this`log, this`sync, this`sent
      ensures Valid() && sync.Reading? && activeSeq == 0
      ensures sent == old(sent) + if old(activeSeq) == 0 then [] else [DoneReply(old(activeSeq))]
      ensures Model() == Step(old(Model()), SyncTurn)
    {
      hide Shape, Capture, ValidMachine, Pairs, Replies, Restore, Matches, ZeroMap, SameCore;
      ghost var m0 := Model();
      ghost var item := Done(activeSeq, false, activation in wins, overwritten);
      RepliesGrow(log, item);
      if activeSeq != 0 {
        sent, log := sent + [DoneReply(activeSeq)], log + [item];
        activeSeq := 0;
      }
      sync := Reading;
      assert Model() == Step(m0, SyncTurn);
    }

    /** A RESTORE frame: the snapshot comes back and is acknowledged. */
    method AnswerRestore()
      requires Valid() && sync.Reading?
      modifies this`machine, this`clearNext, this`log, this`sync, this`sent
      ensures Valid() && sync.AskNext? && clearNext && Matches(machine, at, policy)
      ensures sent == old(sent) + [RestoreDoneReply]
      ensures Model() == Step(Step(Step(old(Model()), Incoming(RestoreRequest)), SyncTurn), SyncTurn)
    {
      hide Shape, Step, Capture, ValidMachine, Pairs, Replies, Restore, Matches;
      RestoreSteps(Model());
      machine := Restore(machine, Capture(at, policy), policy.special);
      clearNext := true;
      RepliesGrow(log, GotRestore);
      RepliesGrow(log + [GotRestore], Restored);
      RepliesGrow(log + [GotRestore] + [Restored], RestoreDone(machine));
      sent, log := sent + [RestoreDoneReply], log + [GotRestore] + [Restored] + [RestoreDone(machine)];
      sync := AskNext;
    }

    /** read_next_frame for an INPUT, and the map cleared if a restore came first. */
    method ReadInput(number: nat, payload: seq<int>)
      requires Valid() && sync.Reading?
      modifies this`activeSeq, this`clearNext, this`log, this`sync, cvg
      ensures Valid() && sync.ArmWait? && activeSeq == number && sent == old(sent)
      ensures old(clearNext) ==> cvg[..] == ZeroMap()
      ensures Model() == Step(old(Model()), Incoming(Input(number, payload)))
    {
      hide Shape, Step, Capture, ValidMachine, Pairs, Replies, ZeroMap;
      InputStep(Model(), number, payload);
      RepliesGrow(log, GotInput(number));
      activeSeq := number;
      ClearIfAsked();
      log, sync := log + [GotInput(number)], ArmWait;
    }

    /** fuzz_activate_message */
    method ActivateMessage(payload: seq<int>)
      requires Valid() && sync.ArmWait? && !msg.Consuming?
      modifies this`data, this`msg, this`log, this`sync, this`activation, this`overwritten
      ensures Valid() && sync.Running? && msg.Ready? && data == payload && sent == old(sent)
      ensures Model() == Step(Step(old(Model()), SyncTurn), SyncTurn)
    {
      hide Shape, Step, Capture, ValidMachine, Pairs, Replies, ZeroMap;
      ActivateSteps(Model());
      ghost var item := Armed(activation + 1, cvg[..] == ZeroMap());
      RepliesGrow(log, item);
      data, log := payload, log + [item];
      msg, activation, overwritten, sync := Ready, activation + 1, false, Running;
    }

    /** An INPUT frame: recorded, the map cleared if a restore came first, the message armed. */
    method ArmInput(number: nat, payload: seq<int>)
      requires Valid() && sync.Reading? && !msg.Consuming?
      modifies this`activeSeq, this`clearNext, this`data, this`msg, this`log, this`sync, this`activation
      modifies this`overwritten, cvg
      ensures Valid() && sync.Running? && msg.Ready? && data == payload && activeSeq == number && sent == old(sent)
      ensures old(clearNext) ==> cvg[..] == ZeroMap()
      ensures Model() == Step(Step(Step(old(Model()), Incoming(Input(number, payload))), SyncTurn), SyncTurn)
    {
      hide Shape, Step, Capture, ValidMachine, Pairs, Replies, ZeroMap;
      ReadInput(number, payload);
      ActivateMessage(payload);
    }

    /** fuzz_get_data, run to its end: a READY message is copied as far as the buffer goes, once. */
    method GetData(len: nat) returns (buf: seq<int>)
      requires Valid()
      modifies this`msg, this`wins, this`log
      ensures Valid() && sent == old(sent)
      ensures old(msg).Ready? && len > 0 ==>
                && Model() == Step(Step(old(Model()), Attempt(0)), FinishCopy(0))
                && msg.Consumed? && buf == data[..if |data| < len then |data| else len]
      ensures !(old(msg).Ready? && len > 0) ==> buf == [] && Model() == old(Model())
    {
      hide Shape, Step, Capture, ValidMachine, Pairs, Replies, ZeroMap;
      buf := [];
      if len != 0 && msg.Ready? {
        GetSteps(Model());
        buf := data[..if |data| < len then |data| else len];
        RepliesGrow(log, Won(activation));
        log, wins := log + [Won(activation)], wins + [activation];
        msg := Consumed;
      }
    }

    /** The start of fuzz_sync_point: whatever was armed is taken out of circulation. */
    method EnterSyncPoint() returns (was: MsgState, ghost evs: seq<Event>)
      requires Valid() && sync.Running? && !msg.Consuming?
      modifies this`msg, this`sync
      ensures Valid() && was == old(msg) && msg.Inactive? && sync == Synced(was)
      ensures Model() == Run(old(Model()), evs) && Frames(evs) == []
    {
      hide Shape, Step, Capture, ValidMachine, Pairs, Run, Frames;
      ghost var m0 := Model();
      NothingYet(m0);
      assert Step(m0, SyncHit) == m0.(sync := DeactWait) by { HitSteps(m0); }
      sync := DeactWait;
      was := DeactivateMessage();
      evs := [] + [SyncHit] + [SyncTurn] + [SyncTurn];
      GrowThree(m0, [], SyncHit);
    }

    /** One frame while polling: after a RESTORE polling goes on, an INPUT ends it. */
    method TakeFrame(frame: Frame) returns (ghost evs: seq<Event>)
      requires Valid() && sync.Reading? && msg.Inactive?
      modifies this, cvg
      ensures Valid() && Model() == Run(old(Model()), evs) && Frames(evs) == [frame]
      ensures frame.Input? ==> sync.Running? && msg.Ready? && data == frame.data
      ensures !frame.Input? ==> sync.Reading? && msg.Inactive?
    {
      hide Shape, Step, Capture, ValidMachine, Pairs, Replies, Matches, Run, Frames;
      ghost var m0 := Model();
      NothingYet(m0);
      GrowThree(m0, [], Incoming(frame));
      Grow(m0, [], Incoming(frame));
      evs := [] + [Incoming(frame)] + [SyncTurn] + [SyncTurn];
      Grow(m0, evs, SyncTurn);
      match frame
      case RestoreRequest =>
        AnswerRestore();
        CompletePrevious();
        evs := evs + [SyncTurn];
      case Other =>
        OtherSteps(m0);
        RepliesGrow(log, GotOther);
        log := log + [GotOther];
        evs := [] + [Incoming(Other)];
      case Input(number, payload) =>
        ArmInput(number, payload);
    }

    /** The polling loop: frames are taken until an INPUT is armed or none are left. */
    method Poll(inbox: seq<Frame>) returns (used: nat, ghost evs: seq<Event>)
      requires Valid() && sync.Reading? && msg.Inactive?
      modifies this, cvg
      ensures Valid() && used <= |inbox|
      ensures Model() == Run(old(Model()), evs) && Frames(evs) == inbox[..used]
      ensures if sync.Reading? then used == |inbox|
              else sync.Running? && used > 0 && inbox[used - 1].Input? && msg.Ready? && data == inbox[used - 1].data
      ensures forall k | 0 <= k < used && inbox[k].Input? :: sync.Running? && k == used - 1
    {
      hide Shape, Step, Capture, ValidMachine, Pairs, Replies, Frames, Matches, Run;
      ghost var m0 := Model();
      NothingYet(m0);
      evs, used := [], 0;
      while used < |inbox|
        invariant Valid() && sync.Reading? && msg.Inactive? && used <= |inbox|
        invariant Model() == Run(m0, evs) && Frames(evs) == inbox[..used]
        invariant forall k | 0 <= k < used :: !inbox[k].Input?
      {
        ghost var more := TakeFrame(inbox[used]);
        Together(m0, evs, more);
        evs := evs + more;
        assert inbox[..used + 1] == inbox[..used] + [inbox[used]];
        used := used + 1;
        if inbox[used - 1].Input? {
          return;
        }
      }
    }

    /** fuzz_sync_point with the frames that arrive while it polls. An unread message is armed again and
        nothing is read or sent; otherwise the previous message is completed, every RESTORE on the way
        is answered, and the first INPUT is armed. */
    method SyncPoint(inbox: seq<Frame>) returns (used: nat, ghost evs: seq<Event>)
      requires Valid() && sync.Running? && !msg.Consuming?
      modifies this, cvg
      ensures Valid() && used <= |inbox|
      ensures Model() == Run(old(Model()), evs) && Frames(evs) == inbox[..used]
      ensures old(msg).Ready? ==> used == 0 && sync.Running? && msg.Ready? && sent == old(sent) && data == old(data)
      ensures !old(msg).Ready? ==> sync.Running? || (sync.Reading? && used == |inbox|)
      ensures !old(msg).Ready? && sync.Running? ==>
                used > 0 && inbox[used - 1].Input? && msg.Ready? && data == inbox[used - 1].data
      ensures !old(msg).Ready? ==> forall k | 0 <= k < used && inbox[k].Input? :: sync.Running? && k == used - 1
    {
      hide Shape, Step, Capture, ValidMachine, Pairs, Replies, Frames, Matches, Run;
      ghost var m0 := Model();
      var was;
      was, evs := EnterSyncPoint();
      used := 0;
      if was.Ready? {
        ReactivateSteps(Model());
        GrowThree(m0, evs, SyncTurn);
        evs := evs + [SyncTurn] + [SyncTurn] + [SyncTurn];
        msg, sync := Ready, Running;
        return;
      }
      SkipSteps(Model());
      Grow(m0, evs, SyncTurn);
      evs, sync := evs + [SyncTurn], AskNext;
      Grow(m0, evs, SyncTurn);
      CompletePrevious();
      evs := evs + [SyncTurn];
      ghost var more;
      used, more := Poll(inbox);
      Together(m0, evs, more);
      evs := evs + more;
    }

    /** fuzz_backend_report_assert, after which the vCPU thread spins if the assert is fatal. */
    method ReportAssert(fatal: bool)
      requires Valid() && sync.Running?
      modifies this`activeSeq, this`log, this`sync, this`sent
      ensures Valid()
      ensures Model() == if fatal then Step(old(Model()), FatalAssert) else old(Model())
      ensures sent == old(sent) + if fatal && old(activeSeq) != 0 then [DoneReply(old(activeSeq))] else []
    {
      hide Shape, Capture, ValidMachine, Pairs, Replies, Restore, Matches, ZeroMap, SameCore, SyncStep;
      ghost var m0 := Model();
      if fatal {
        ghost var item := Done(activeSeq, true, activation in wins, overwritten);
        RepliesGrow(log, item);
        if activeSeq != 0 {
          sent, log := sent + [DoneReply(activeSeq)], log + [item];
          activeSeq := 0;
        }
        sync := Halted;
        assert Model() == Step(m0, FatalAssert);
      }
    }
  }
}
