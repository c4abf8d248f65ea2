// The fuzzing loop (virtuals/fuzzer/fuzz.c:177-242, 831-888; fuzz_aflnet.c:193-281): the vCPU thread
// at its sync point, any number of threads calling fuzz_get_data, and the fuzzer at the other end of
// the socket. One step is one atomic access to g_active_msg_state, or one action outside it.
module FuzzLoop {
  import opened Options
  import opened Snapshot

  const MAP_SIZE: nat := 65536

  datatype MsgState = Inactive | Ready | Consuming | Consumed

  datatype Frame = Input(number: nat, data: seq<int>) | RestoreRequest | Other

  /** Where the vCPU thread is. */
  datatype SyncPc =
    | Running                        // executing firmware
    | DeactWait                      // fuzz_deactivate_message: waiting out a copy
    | DeactSwap                      // about to exchange the state
    | Synced(seen: MsgState)         // coverage drained; seen is what the exchange returned
    | ReactWait                      // fuzz_set_message_state: waiting out a copy
    | ReactStore                     // about to store READY again
    | AskNext                        // about to complete the previous message
    | Reading                        // polling for a frame
    | Restoring                      // a RESTORE frame was read
    | Acking                         // about to send RESTORE_DONE
    | ArmWait                        // fuzz_activate_message: waiting out a copy
    | ArmStore                       // about to store READY
    | Halted                         // after a fatal assert

  /** What happened, in order. */
  datatype Item =
    | GotInput(number: nat)
    | GotRestore
    | GotOther
    | Armed(activation: nat, cvgZero: bool)
    | Won(activation: nat)
    | Done(number: nat, fatal: bool, taken: bool, overwritten: bool)
    | Restored
    | RestoreDone(machine: Machine)

  datatype State = State(
    policy: Policy,
    at: Machine,                  // the machine when the snapshot was captured
    snap: Saved,
    machine: Machine,
    cvg: seq<int>,
    msg: MsgState,
    activation: nat,              // how many messages were armed
    activeSeq: nat,
    clearNext: bool,
    sync: SyncPc,
    getters: map<nat, nat>,       // thread -> the activation it won and is copying
    wins: seq<nat>,               // activations in the order they were won
    overwritten: bool,            // a late CONSUMED store replaced READY for this activation
    log: seq<Item>)

  datatype Event =
    | Firmware(machine: Machine, cvg: seq<int>)
    | SyncHit
    | FatalAssert
    | SyncTurn
    | Incoming(frame: Frame)
    | Attempt(thread: nat)        // the compare-and-exchange of fuzz_get_data
    | FinishCopy(thread: nat)     // its final CONSUMED store

  function ZeroMap(): (s: seq<int>)
    ensures |s| == MAP_SIZE
  {
    seq(MAP_SIZE, _ => 0)
  }

  predicate Shape(s: State) {
    && ValidMachine(s.at) && ValidMachine(s.machine) && Pairs(s.policy.ranges)
    && s.snap == Capture(s.at, s.policy)
    && SameCore(s.machine, s.at)
  }

  /** The first visit of the snapshot point: captured, observed values cleared. */
  function Init(at: Machine, policy: Policy): (s: State)
    requires ValidMachine(at) && Pairs(policy.ranges)
    ensures Shape(s)
  {
    State(policy, at, Capture(at, policy), at, ZeroMap(), Inactive, 0, 0, false, Running, map[], [], false, [])
  }

  function Record(s: State, item: Item): State {
    s.(log := s.log + [item])
  }

  /** complete_previous_message: at most one DONE for the active number. */
  function Complete(s: State, fatal: bool): (s': State)
    ensures s'.(log := s.log, activeSeq := s.activeSeq) == s
  {
    if s.activeSeq == 0 then s
    else Record(s, Done(s.activeSeq, fatal, s.activation in s.wins, s.overwritten)).(activeSeq := 0)
  }

  function SyncStep(s: State): (s': State)
    requires Shape(s)
    ensures Shape(s') && s'.at == s.at && s'.policy == s.policy
  {
    match s.sync
    case DeactWait => if s.msg.Consuming? then s else s.(sync := DeactSwap)
    case DeactSwap => s.(sync := Synced(s.msg), msg := Inactive)
    case Synced(seen) => s.(sync := if seen.Ready? then ReactWait else AskNext)
    case ReactWait => if s.msg.Consuming? then s else s.(sync := ReactStore)
    case ReactStore => s.(msg := Ready, sync := Running)
    case AskNext => Complete(s, false).(sync := Reading)
    case Restoring =>
      RestoreIsExact(s.at, s.machine, s.policy);
      Record(s, Restored).(machine := Restore(s.machine, s.snap, s.policy.special), clearNext := true, sync := Acking)
    case Acking => Record(s, RestoreDone(s.machine)).(sync := AskNext)
    case ArmWait =>
      if s.msg.Consuming? then s else s.(sync := ArmStore)
    case ArmStore =>
      Record(s, Armed(s.activation + 1, s.cvg == ZeroMap())).(msg := Ready, activation := s.activation + 1, overwritten := false, sync := Running)
    case _ => s
  }

  /** A frame is read; an input clears the observed values first if a restore came before it. */
  function ReadFrame(s: State, frame: Frame): (s': State)
    ensures s'.policy == s.policy && s'.at == s.at && s'.snap == s.snap && s'.machine == s.machine
  {
    match frame
    case RestoreRequest => Record(s, GotRestore).(sync := Restoring)
    case Other => Record(s, GotOther)
    case Input(number, _) =>
      var s := Record(s, GotInput(number)).(activeSeq := number, sync := ArmWait);
      if s.clearNext then s.(cvg := ZeroMap(), clearNext := false) else s
  }

  function Step(s: State, ev: Event): (s': State)
    requires Shape(s)
    ensures Shape(s') && s'.at == s.at && s'.policy == s.policy
  {
    match ev
    case Firmware(machine, cvg) =>
      if s.sync.Running? && ValidMachine(machine) && SameCore(machine, s.at) then s.(machine := machine, cvg := cvg) else s
    case SyncHit => if s.sync.Running? then s.(sync := DeactWait) else s
    case FatalAssert => if s.sync.Running? then Complete(s, true).(sync := Halted) else s
    case SyncTurn => SyncStep(s)
    case Incoming(frame) => if s.sync.Reading? then ReadFrame(s, frame) else s
    case Attempt(thread) =>
      if s.msg.Ready? && thread !in s.getters
      then Record(s, Won(s.activation)).(msg := Consuming, getters := s.getters[thread := s.activation], wins := s.wins + [s.activation])
      else s
    case FinishCopy(thread) =>
      if thread in s.getters
      then s.(msg := Consumed, getters := s.getters - {thread}, overwritten := s.overwritten || s.msg.Ready?)
      else s
  }

  function Run(s: State, evs: seq<Event>): (s': State)
    requires Shape(s)
    ensures Shape(s')
  {
    if evs == [] then s else Step(Run(s, evs[..|evs| - 1]), evs[|evs| - 1])
  }

  // ----- at most one winner -----

  /** The vCPU thread has taken the current message out of circulation unread. */
  predicate HoldsUnread(sync: SyncPc) {
    sync == Synced(Ready) || sync.ReactWait? || sync.ReactStore?
  }

  /** READY is only ever seen while firmware runs or the vCPU thread has not exchanged the state yet. */
  predicate MayBeReady(sync: SyncPc) {
    sync.Running? || sync.DeactWait? || sync.DeactSwap? || sync.Halted?
  }

  ghost predicate WonOnce(wins: seq<nat>) {
    forall i, j | 0 <= i < j < |wins| :: wins[i] != wins[j]
  }

  ghost predicate Unread(wins: seq<nat>, activation: nat, msg: MsgState, sync: SyncPc) {
    && (forall i | 0 <= i < |wins| :: 1 <= wins[i] <= activation)
    && (msg.Ready? || HoldsUnread(sync) ==> activation >= 1 && activation !in wins)
    && (msg.Ready? ==> MayBeReady(sync))
  }

  ghost predicate WinInv(s: State) {
    WonOnce(s.wins) && Unread(s.wins, s.activation, s.msg, s.sync)
  }

  lemma SyncKeepsWinInv(s: State)
    requires Shape(s) && WinInv(s)
    ensures WinInv(SyncStep(s))
  {
    hide Capture, Restore, Matches, WonOnce, Shape, ZeroMap, Complete;
    var s' := SyncStep(s);
    assert s'.wins == s.wins;
    if s.sync.ArmStore? {
      assert s.activation + 1 !in s.wins;
    } else {
      assert s'.activation == s.activation;
      SyncKeepsUnread(s);
    }
  }

  lemma SyncKeepsUnread(s: State)
    requires Shape(s) && WinInv(s) && !s.sync.ArmStore?
    ensures Unread(s.wins, s.activation, SyncStep(s).msg, SyncStep(s).sync)
  {
    hide Capture, Restore, Matches, WonOnce, Shape, ZeroMap, Complete;
    assert s.msg.Ready? || HoldsUnread(s.sync) ==> s.activation !in s.wins;
  }

  lemma WinningKeepsWinInv(s: State, thread: nat)
    requires Shape(s) && WinInv(s)
    ensures WinInv(Step(s, Attempt(thread)))
  {
    hide Capture, Restore, Matches, Shape, ZeroMap, SyncStep, Complete, SameCore, ValidMachine;
  }

  lemma StepKeepsWinInv(s: State, ev: Event)
    requires Shape(s) && WinInv(s)
    ensures WinInv(Step(s, ev))
  {
    hide Capture, Restore, Matches, Shape, ZeroMap, SyncStep, Complete, SameCore, ValidMachine, WonOnce;
    match ev
    case SyncTurn => SyncKeepsWinInv(s);
    case Attempt(thread) => WinningKeepsWinInv(s, thread);
    case _ =>
  }

  /** Over all interleavings of any number of threads, no armed message is won twice. */
  lemma {:induction false} EachMessageIsWonOnce(at: Machine, policy: Policy, evs: seq<Event>)
    requires ValidMachine(at) && Pairs(policy.ranges)
    ensures WinInv(Run(Init(at, policy), evs))
    ensures WonOnce(Run(Init(at, policy), evs).wins)
  {
    hide Step, Unread, WonOnce;
    if evs == [] {
      InitWinInv(at, policy);
    } else {
      EachMessageIsWonOnce(at, policy, evs[..|evs| - 1]);
      StepKeepsWinInv(Run(Init(at, policy), evs[..|evs| - 1]), evs[|evs| - 1]);
    }
  }

  lemma InitWinInv(at: Machine, policy: Policy)
    requires ValidMachine(at) && Pairs(policy.ranges)
    ensures WinInv(Init(at, policy))
  {
  }

  // ----- the handshake -----

  /** What a fuzzer watching the socket and the plugin would keep track of. */
  datatype Watch = Watch(open_: Option<nat>, taken: bool, restoring: bool, back: bool, unarmed: bool, fine: bool)

  /** One more item; `fine` says whether the protocol still holds. */
  ghost function Observe(w: Watch, item: Item, at: Machine, policy: Policy): Watch
    requires ValidMachine(at) && Pairs(policy.ranges)
  {
    match item
    // a frame is only read when every earlier input is done and every restore answered
    case GotInput(number) => w.(open_ := Some(number), taken := false, fine := w.fine && w.open_.None? && !w.restoring)
    case GotRestore => w.(restoring := true, back := false, unarmed := true, fine := w.fine && w.open_.None? && !w.restoring)
    case GotOther => w.(fine := w.fine && w.open_.None? && !w.restoring)
    case Won(_) => w.(taken := true)
    // one DONE, for the open input; unless fatal, its message was taken or lost to a late store
    case Done(number, fatal, taken, overwritten) =>
      w.(open_ := None, fine := w.fine && w.open_ == Some(number) && taken == w.taken && (!fatal ==> taken == !overwritten))
    case Restored => w.(back := true, fine := w.fine && w.restoring && !w.back)
    // RESTORE_DONE only once the snapshot is back
    case RestoreDone(machine) =>
      w.(restoring := false, fine := w.fine && w.restoring && w.back && ValidMachine(machine) && Matches(machine, at, policy))
    // the first input after a restore is armed over an all-zero map
    case Armed(_, cvgZero) => w.(unarmed := false, fine := w.fine && w.open_.Some? && (w.unarmed ==> cvgZero))
  }

  ghost function Watched(log: seq<Item>, at: Machine, policy: Policy): Watch
    requires ValidMachine(at) && Pairs(policy.ranges)
  {
    if log == [] then Watch(None, false, false, false, false, true)
    else Observe(Watched(log[..|log| - 1], at, policy), log[|log| - 1], at, policy)
  }

  /** The vCPU thread is between reading a frame and arming or answering it. */
  predicate Arming(sync: SyncPc) {
    sync.ArmWait? || sync.ArmStore?
  }

  /** An armed message: unread exactly while it is READY or held by the vCPU thread, else taken or lost. */
  predicate Circulates(msg: MsgState, sync: SyncPc, won: bool, overwritten: bool) {
    match sync
    case Running => InFirmware(msg, won, overwritten)
    case DeactWait => InFirmware(msg, won, overwritten)
    case DeactSwap => InFirmware(msg, won, overwritten)
    case Synced(seen) => if seen.Ready? then !overwritten else overwritten == !won
    case ReactWait => !overwritten
    case ReactStore => !overwritten
    case AskNext => overwritten == !won
    case _ => false
  }

  predicate InFirmware(msg: MsgState, won: bool, overwritten: bool) {
    if msg.Ready? then !overwritten else !msg.Inactive? && overwritten == !won
  }

  ghost predicate HandshakeInv(s: State)
    requires Shape(s)
  {
    var w := Watched(s.log, s.at, s.policy);
    && w.fine
    && w.open_ == (if s.activeSeq == 0 then None else Some(s.activeSeq))
    && (w.restoring <==> s.sync.Restoring? || s.sync.Acking?)
    && (s.sync.Restoring? ==> !w.back)
    && (s.sync.Acking? ==> w.back && Matches(s.machine, s.at, s.policy))
    && (s.sync.Restoring? || s.sync.Acking? || s.sync.Reading? ==> s.activeSeq == 0)
    && (w.unarmed ==> if Arming(s.sync) then s.cvg == ZeroMap() else s.clearNext || s.sync.Restoring?)
    && (Arming(s.sync) ==> s.activeSeq != 0)
    && (s.activeSeq != 0 ==> (w.taken <==> !Arming(s.sync) && s.activation in s.wins))
    && (s.activeSeq != 0 && !Arming(s.sync) ==> Circulates(s.msg, s.sync, s.activation in s.wins, s.overwritten))
  }

  lemma WatchedExtends(log: seq<Item>, item: Item, at: Machine, policy: Policy)
    requires ValidMachine(at) && Pairs(policy.ranges)
    ensures Watched(log + [item], at, policy) == Observe(Watched(log, at, policy), item, at, policy)
  {
    assert (log + [item])[..|log|] == log;
  }

  lemma CompleteKeepsHandshake(s: State)
    requires Shape(s) && WinInv(s) && HandshakeInv(s) && s.sync.AskNext?
    ensures HandshakeInv(SyncStep(s))
  {
    hide Watched, Capture, Restore, Matches, SameCore, ZeroMap, Unread, WonOnce;
    if s.activeSeq != 0 {
      WatchedExtends(s.log, Done(s.activeSeq, false, s.activation in s.wins, s.overwritten), s.at, s.policy);
    }
  }

  lemma FatalKeepsHandshake(s: State)
    requires Shape(s) && WinInv(s) && HandshakeInv(s)
    ensures HandshakeInv(Step(s, FatalAssert))
  {
    hide Watched, Capture, Restore, Matches, SameCore, ZeroMap, Unread, WonOnce, SyncStep;
    if s.activeSeq != 0 {
      WatchedExtends(s.log, Done(s.activeSeq, true, s.activation in s.wins, s.overwritten), s.at, s.policy);
    }
  }

  lemma RestoreKeepsHandshake(s: State)
    requires Shape(s) && HandshakeInv(s) && (s.sync.Restoring? || s.sync.Acking?)
    ensures HandshakeInv(SyncStep(s))
  {
    hide Watched, Capture, Restore, Matches, SameCore, ZeroMap;
    if s.sync.Restoring? {
      RestoreIsExact(s.at, s.machine, s.policy);
      WatchedExtends(s.log, Restored, s.at, s.policy);
    } else {
      WatchedExtends(s.log, RestoreDone(s.machine), s.at, s.policy);
    }
  }

  lemma ArmKeepsHandshake(s: State)
    requires Shape(s) && WinInv(s) && HandshakeInv(s) && s.sync.ArmStore?
    ensures HandshakeInv(SyncStep(s))
  {
    hide Watched, Capture, Restore, Matches, SameCore, ZeroMap, WonOnce, ValidMachine;
    WatchedExtends(s.log, Armed(s.activation + 1, s.cvg == ZeroMap()), s.at, s.policy);
    assert s.activation + 1 !in s.wins;
  }

  /** The turns of the vCPU thread that send nothing. */
  lemma QuietTurnKeepsHandshake(s: State)
    requires Shape(s) && WinInv(s) && HandshakeInv(s)
    requires !s.sync.AskNext? && !s.sync.Restoring? && !s.sync.Acking? && !s.sync.ArmStore?
    ensures HandshakeInv(SyncStep(s))
  {
    hide Watched, Capture, Restore, Matches, SameCore, ZeroMap, WonOnce, ValidMachine, Complete, Observe, Unread, Circulates;
    var s' := SyncStep(s);
    assert s' == s.(sync := s'.sync, msg := s'.msg);
    assert Arming(s'.sync) == Arming(s.sync);
    if s.activeSeq != 0 && !Arming(s.sync) {
      QuietTurnCirculates(s);
    }
  }

  lemma QuietTurnCirculates(s: State)
    requires Shape(s) && WinInv(s) && Circulates(s.msg, s.sync, s.activation in s.wins, s.overwritten)
    requires !s.sync.AskNext? && !s.sync.Restoring? && !s.sync.Acking? && !Arming(s.sync)
    ensures Circulates(SyncStep(s).msg, SyncStep(s).sync, s.activation in s.wins, s.overwritten)
  {
    hide Watched, Capture, Restore, Matches, SameCore, ZeroMap, WonOnce, ValidMachine, Complete, Observe;
  }

  lemma FrameKeepsHandshake(s: State, frame: Frame)
    requires Shape(s) && HandshakeInv(s) && s.sync.Reading? && NonZero(Incoming(frame))
    ensures HandshakeInv(Step(s, Incoming(frame)))
  {
    hide Watched, Capture, Restore, Matches, SameCore, ZeroMap, SyncStep, Complete, Circulates;
    match frame
    case RestoreRequest => WatchedExtends(s.log, GotRestore, s.at, s.policy);
    case Other => WatchedExtends(s.log, GotOther, s.at, s.policy);
    case Input(number, _) => WatchedExtends(s.log, GotInput(number), s.at, s.policy);
  }

  lemma AttemptKeepsHandshake(s: State, thread: nat)
    requires Shape(s) && WinInv(s) && HandshakeInv(s)
    ensures HandshakeInv(Step(s, Attempt(thread)))
  {
    hide Watched, Capture, Restore, Matches, SameCore, ZeroMap, ValidMachine, SyncStep, Complete, WonOnce;
    WatchedExtends(s.log, Won(s.activation), s.at, s.policy);
  }

  lemma OtherStepsKeepHandshake(s: State, ev: Event)
    requires Shape(s) && WinInv(s) && HandshakeInv(s)
    requires ev.Firmware? || ev.SyncHit? || ev.FinishCopy?
    ensures HandshakeInv(Step(s, ev))
  {
    hide Capture, Restore, Matches, SameCore, ZeroMap, ValidMachine, SyncStep, Complete, WonOnce, Watched;
    assert Step(s, ev).log == s.log;
  }

  /** The fuzzer numbers its inputs from one. */
  predicate NonZero(ev: Event) {
    ev.Incoming? && ev.frame.Input? ==> ev.frame.number != 0
  }

  lemma StepKeepsHandshake(s: State, ev: Event)
    requires Shape(s) && WinInv(s) && HandshakeInv(s) && NonZero(ev)
    ensures HandshakeInv(Step(s, ev))
  {
    hide Capture, Restore, Matches, SameCore, ZeroMap, ValidMachine, Complete, WinInv, HandshakeInv, Watched;
    match ev
    case SyncTurn =>
      if s.sync.AskNext? {
        CompleteKeepsHandshake(s);
      } else if s.sync.Restoring? || s.sync.Acking? {
        RestoreKeepsHandshake(s);
      } else if s.sync.ArmStore? {
        ArmKeepsHandshake(s);
      } else {
        QuietTurnKeepsHandshake(s);
      }
    case FatalAssert => FatalKeepsHandshake(s);
    case Incoming(frame) =>
      if s.sync.Reading? {
        FrameKeepsHandshake(s, frame);
      }
    case Attempt(thread) => AttemptKeepsHandshake(s, thread);
    case _ => OtherStepsKeepHandshake(s, ev);
  }

  /** In every run, over all interleavings, the fuzzer sees the protocol kept. */
  lemma {:induction false} RunKeepsHandshake(at: Machine, policy: Policy, evs: seq<Event>)
    requires ValidMachine(at) && Pairs(policy.ranges) && forall ev | ev in evs :: NonZero(ev)
    ensures HandshakeInv(Run(Init(at, policy), evs))
    ensures Run(Init(at, policy), evs).at == at && Run(Init(at, policy), evs).policy == policy
    ensures Watched(Run(Init(at, policy), evs).log, at, policy).fine
  {
    hide Step, Shape, Pairs, ValidMachine, Observe;
    if evs != [] {
      var before := evs[..|evs| - 1];
      RunKeepsHandshake(at, policy, before);
      EachMessageIsWonOnce(at, policy, before);
      StepKeepsHandshake(Run(Init(at, policy), before), evs[|evs| - 1]);
    } else {
      assert Run(Init(at, policy), []) == Init(at, policy);
    }
  }

  // ----- what a fine log says, read entry by entry -----

  predicate IsFrame(item: Item) {
    item.GotInput? || item.GotRestore? || item.GotOther?
  }

  /** Between positions i and k no frame was read and no DONE was sent. */
  predicate Undisturbed(log: seq<Item>, i: nat, k: nat)
    requires k <= |log|
  {
    forall j | i < j < k :: !IsFrame(log[j]) && !log[j].Done?
  }

  predicate TakenBetween(log: seq<Item>, i: nat, k: nat)
    requires k <= |log|
  {
    exists j | i < j < k :: log[j].Won?
  }

  /** log[i] is the input log[k] completes, and says truly whether its message was taken. */
  predicate Answers(log: seq<Item>, i: nat, k: nat)
    requires i < k < |log|
  {
    && log[k].Done? && log[i] == GotInput(log[k].number) && Undisturbed(log, i, k)
    && (log[k].taken <==> TakenBetween(log, i, k))
    && (!log[k].fatal ==> (log[k].taken <==> !log[k].overwritten))
  }

  lemma LastItem(log: seq<Item>, at: Machine, policy: Policy)
    requires ValidMachine(at) && Pairs(policy.ranges) && log != []
    ensures Watched(log, at, policy) == Observe(Watched(log[..|log| - 1], at, policy), log[|log| - 1], at, policy)
  {
    hide Matches, ValidMachine, Pairs, Observe;
  }

  lemma NoItem(at: Machine, policy: Policy)
    requires ValidMachine(at) && Pairs(policy.ranges)
    ensures var w := Watched([], at, policy); w.fine && w.open_.None? && !w.restoring
  {
  }

  lemma FinePrefix(log: seq<Item>, k: nat, at: Machine, policy: Policy)
    requires ValidMachine(at) && Pairs(policy.ranges) && k <= |log| && Watched(log, at, policy).fine
    ensures Watched(log[..k], at, policy).fine
  {
    hide Watched, Matches, ValidMachine, Pairs;
    if k == |log| {
      assert log[..k] == log;
    } else {
      var init := log[..|log| - 1];
      assert init[..k] == log[..k];
      LastItem(log, at, policy);
      FinePrefix(init, k, at, policy);
    }
  }

  /** An item after which an input is open either opened it or left everything about it alone. */
  lemma OpenStays(w: Watch, item: Item, at: Machine, policy: Policy)
    requires ValidMachine(at) && Pairs(policy.ranges)
    requires Observe(w, item, at, policy).fine && Observe(w, item, at, policy).open_.Some?
    ensures var w' := Observe(w, item, at, policy);
            if item.GotInput? then w'.open_ == Some(item.number) && !w'.taken
            else w.fine && w'.open_ == w.open_ && !IsFrame(item) && !item.Done? && (w'.taken <==> w.taken || item.Won?)
  {
    hide Matches, ValidMachine, Pairs;
  }

  /** While an input is open, the log ends with it and nothing that disturbs it. */
  lemma OpenInput(log: seq<Item>, at: Machine, policy: Policy) returns (i: nat)
    requires ValidMachine(at) && Pairs(policy.ranges)
    requires Watched(log, at, policy).fine && Watched(log, at, policy).open_.Some?
    ensures i < |log| && log[i] == GotInput(Watched(log, at, policy).open_.value) && Undisturbed(log, i, |log|)
    ensures Watched(log, at, policy).taken <==> TakenBetween(log, i, |log|)
  {
    hide Watched, Observe, Matches, ValidMachine, Pairs;
    if log == [] {
      NoItem(at, policy);
    }
    var init, last := log[..|log| - 1], log[|log| - 1];
    LastItem(log, at, policy);
    OpenStays(Watched(init, at, policy), last, at, policy);
    if last.GotInput? {
      i := |log| - 1;
    } else {
      i := OpenInput(init, at, policy);
      WindowExtends(init, last, i);
      assert init + [last] == log;
    }
  }

  lemma WindowExtends(log: seq<Item>, last: Item, i: nat)
    requires i < |log| && Undisturbed(log, i, |log|) && !IsFrame(last) && !last.Done?
    ensures (log + [last])[i] == log[i] && Undisturbed(log + [last], i, |log| + 1)
    ensures TakenBetween(log + [last], i, |log| + 1) <==> TakenBetween(log, i, |log|) || last.Won?
  {
    hide IsFrame;
    var more := log + [last];
    assert more[|log|] == last && forall j | i < j < |log| :: more[j] == log[j];
    if TakenBetween(log, i, |log|) {
      var j: nat :| i < j < |log| && log[j].Won?;
      assert more[j].Won?;
    }
  }

  /** Each DONE answers the input read last, says truly whether its message was taken, and unless the
      assert was fatal it was taken if and only if no late store replaced READY. */
  lemma DoneAnswersItsInput(log: seq<Item>, k: nat, at: Machine, policy: Policy) returns (i: nat)
    requires ValidMachine(at) && Pairs(policy.ranges)
    requires Watched(log, at, policy).fine && k < |log| && log[k].Done?
    ensures i < k && Answers(log, i, k)
  {
    hide Watched, Matches, ValidMachine, Pairs;
    FinePrefix(log, k + 1, at, policy);
    FinePrefix(log, k, at, policy);
    LastItem(log[..k + 1], at, policy);
    assert log[..k + 1][..k] == log[..k];
    i := OpenInput(log[..k], at, policy);
    assert forall j | i < j < k :: log[..k][j] == log[j];
    assert TakenBetween(log, i, k) <==> TakenBetween(log[..k], i, k);
  }

  /** The DONE for an input comes before the next frame, whatever that frame is. */
  lemma DoneComesBeforeTheNextFrame(log: seq<Item>, i: nat, k: nat, at: Machine, policy: Policy) returns (d: nat)
    requires ValidMachine(at) && Pairs(policy.ranges) && Watched(log, at, policy).fine
    requires i < k < |log| && log[i].GotInput? && IsFrame(log[k])
    ensures i < d < k && log[d].Done? && log[d].number == log[i].number
  {
    hide Watched, Observe, Matches, ValidMachine, Pairs;
    InputNeedsNoneOpen(log, k, at, policy);
    d := FirstDone(log[..k], i, at, policy);
  }

  /** An item that closes an input is its DONE. */
  lemma ClosedByDone(w: Watch, item: Item, at: Machine, policy: Policy)
    requires ValidMachine(at) && Pairs(policy.ranges)
    requires Observe(w, item, at, policy).fine && Observe(w, item, at, policy).open_.None?
    ensures w.open_.Some? ==> item.Done? && item.number == w.open_.value
    ensures !item.GotInput?
  {
    hide Matches, ValidMachine, Pairs;
  }

  lemma InputNeedsNoneOpen(log: seq<Item>, k: nat, at: Machine, policy: Policy)
    requires ValidMachine(at) && Pairs(policy.ranges) && k < |log| && Watched(log, at, policy).fine && IsFrame(log[k])
    ensures Watched(log[..k], at, policy).open_.None? && !Watched(log[..k], at, policy).restoring
    ensures Watched(log[..k], at, policy).fine
  {
    hide Watched, Matches, ValidMachine, Pairs;
    FinePrefix(log, k + 1, at, policy);
    LastItem(log[..k + 1], at, policy);
    assert log[..k + 1][..k] == log[..k];
  }

  lemma FirstDone(log: seq<Item>, i: nat, at: Machine, policy: Policy) returns (d: nat)
    requires ValidMachine(at) && Pairs(policy.ranges) && Watched(log, at, policy).fine
    requires i < |log| && log[i].GotInput? && Watched(log, at, policy).open_.None?
    ensures i < d < |log| && log[d].Done? && log[d].number == log[i].number
  {
    hide Watched, Observe, Matches, ValidMachine, Pairs;
    var n := |log| - 1;
    FinePrefix(log, n, at, policy);
    LastItem(log, at, policy);
    var before := Watched(log[..n], at, policy);
    ClosedByDone(before, log[n], at, policy);
    if before.open_.None? {
      d := FirstDone(log[..n], i, at, policy);
    } else {
      d := n;
      var j := OpenInput(log[..n], at, policy);
      assert i < n && IsFrame(log[..n][i]);
      assert i <= j;
      if i < j {
        InputNeedsNoneOpen(log, j, at, policy);
        d := FirstDone(log[..j], i, at, policy);
      }
    }
  }

  predicate NoFrameBetween(log: seq<Item>, i: nat, k: nat)
    requires k <= |log|
  {
    forall j | i < j < k :: !IsFrame(log[j])
  }

  lemma RestoreStays(w: Watch, item: Item, at: Machine, policy: Policy)
    requires ValidMachine(at) && Pairs(policy.ranges)
    requires Observe(w, item, at, policy).fine && Observe(w, item, at, policy).restoring
    ensures var w' := Observe(w, item, at, policy);
            if item.GotRestore? then !w'.back
            else w.fine && w.restoring && !IsFrame(item) && (w'.back ==> w.back || item.Restored?)
  {
    hide Matches, ValidMachine, Pairs;
  }

  lemma OpenRestore(log: seq<Item>, at: Machine, policy: Policy) returns (i: nat, j: nat)
    requires ValidMachine(at) && Pairs(policy.ranges)
    requires Watched(log, at, policy).fine && Watched(log, at, policy).restoring
    ensures i < |log| && log[i].GotRestore? && NoFrameBetween(log, i, |log|)
    ensures Watched(log, at, policy).back ==> i < j < |log| && log[j].Restored?
  {
    hide Watched, Observe, Matches, ValidMachine, Pairs, IsFrame;
    if log == [] {
      NoItem(at, policy);
    }
    var init, last := log[..|log| - 1], log[|log| - 1];
    LastItem(log, at, policy);
    RestoreStays(Watched(init, at, policy), last, at, policy);
    if last.GotRestore? {
      i, j := |log| - 1, 0;
    } else {
      i, j := OpenRestore(init, at, policy);
      if last.Restored? {
        j := |log| - 1;
      }
      assert forall m | i < m < |init| :: log[m] == init[m];
    }
  }

  /** RESTORE_DONE answers the last frame read, a RESTORE, and is sent after the machine was put back:
      what is running is the captured machine again. */
  lemma RestoreDoneIsTrue(log: seq<Item>, k: nat, at: Machine, policy: Policy) returns (i: nat, j: nat)
    requires ValidMachine(at) && Pairs(policy.ranges)
    requires Watched(log, at, policy).fine && k < |log| && log[k].RestoreDone?
    ensures i < j < k && log[i].GotRestore? && log[j].Restored? && NoFrameBetween(log, i, k)
    ensures ValidMachine(log[k].machine) && Matches(log[k].machine, at, policy)
  {
    hide Watched, Matches, ValidMachine, Pairs;
    FinePrefix(log, k + 1, at, policy);
    FinePrefix(log, k, at, policy);
    LastItem(log[..k + 1], at, policy);
    assert log[..k + 1][..k] == log[..k];
    i, j := OpenRestore(log[..k], at, policy);
    assert forall m | i < m < k :: log[..k][m] == log[m];
  }

  lemma FirstRestoreDone(log: seq<Item>, i: nat, at: Machine, policy: Policy) returns (d: nat)
    requires ValidMachine(at) && Pairs(policy.ranges) && Watched(log, at, policy).fine
    requires i < |log| && log[i].GotRestore? && !Watched(log, at, policy).restoring
    ensures i < d < |log| && log[d].RestoreDone?
  {
    hide Watched, Matches, ValidMachine, Pairs;
    var n := |log| - 1;
    FinePrefix(log, n, at, policy);
    LastItem(log, at, policy);
    if Watched(log[..n], at, policy).restoring {
      d := n;
    } else {
      d := FirstRestoreDone(log[..n], i, at, policy);
    }
  }

  /** A RESTORE is answered before the next frame is read. */
  lemma RestoreIsAnsweredBeforeTheNextFrame(log: seq<Item>, i: nat, k: nat, at: Machine, policy: Policy)
    returns (d: nat)
    requires ValidMachine(at) && Pairs(policy.ranges) && Watched(log, at, policy).fine
    requires i < k < |log| && log[i].GotRestore? && IsFrame(log[k])
    ensures i < d < k && log[d].RestoreDone?
  {
    hide Watched, Matches, ValidMachine, Pairs;
    InputNeedsNoneOpen(log, k, at, policy);
    d := FirstRestoreDone(log[..k], i, at, policy);
  }

  lemma {:induction false} StaysUnarmed(log: seq<Item>, i: nat, at: Machine, policy: Policy)
    requires ValidMachine(at) && Pairs(policy.ranges)
    requires i < |log| && log[i].GotRestore? && forall j | i < j < |log| :: !log[j].Armed?
    ensures Watched(log, at, policy).unarmed
  {
    hide Watched, Matches, ValidMachine, Pairs;
    LastItem(log, at, policy);
    if i < |log| - 1 {
      var init := log[..|log| - 1];
      assert forall j | i <= j < |init| :: init[j] == log[j];
      StaysUnarmed(init, i, at, policy);
    }
  }

  /** The first message armed after a restore finds the coverage map all zero. */
  lemma FirstArmedAfterRestoreIsClean(log: seq<Item>, i: nat, k: nat, at: Machine, policy: Policy)
    requires ValidMachine(at) && Pairs(policy.ranges) && Watched(log, at, policy).fine
    requires i < k < |log| && log[i].GotRestore? && log[k].Armed? && forall j | i < j < k :: !log[j].Armed?
    ensures log[k].cvgZero
  {
    hide Watched, Matches, ValidMachine, Pairs;
    FinePrefix(log, k + 1, at, policy);
    LastItem(log[..k + 1], at, policy);
    assert log[..k + 1][..k] == log[..k];
    StaysUnarmed(log[..k], i, at, policy);
  }

  // ----- when nothing is lost -----

  /** Injection runs on the vCPU thread: only firmware calls fuzz_get_data, and a call in progress has
      finished before the sync point or an assert is reached. */
  predicate OnVcpu(s: State, ev: Event) {
    match ev
    case Attempt(_) => s.sync.Running?
    case SyncHit => s.getters == map[]
    case FatalAssert => s.getters == map[]
    case _ => true
  }

  predicate AllOnVcpu(s: State, evs: seq<Event>)
    requires Shape(s)
  {
    evs == [] ||
    (AllOnVcpu(s, evs[..|evs| - 1]) && OnVcpu(Run(s, evs[..|evs| - 1]), evs[|evs| - 1]))
  }

  ghost predicate OneGetter(getters: map<nat, nat>, sync: SyncPc, msg: MsgState) {
    && (getters != map[] ==> sync.Running? && msg.Consuming?)
    && (forall t, u | t in getters && u in getters :: t == u)
  }

  predicate NothingLost(item: Item) {
    item.Done? ==> !item.overwritten
  }

  ghost predicate Solo(s: State) {
    && OneGetter(s.getters, s.sync, s.msg)
    && !s.overwritten
    && (forall item | item in s.log :: NothingLost(item))
  }

  lemma GettingKeepsSolo(s: State, ev: Event)
    requires Shape(s) && Solo(s) && OnVcpu(s, ev) && (ev.Attempt? || ev.FinishCopy?)
    ensures Solo(Step(s, ev))
  {
    hide Capture, Restore, Matches, SameCore, ZeroMap, ValidMachine, Shape, SyncStep, Complete;
    if ev.FinishCopy? && ev.thread in s.getters {
      assert s.getters - {ev.thread} == map[];
    }
  }

  lemma SyncTurnKeepsSolo(s: State)
    requires Shape(s) && Solo(s)
    ensures Solo(SyncStep(s))
  {
    hide Capture, Restore, Matches, SameCore, ZeroMap, ValidMachine, Shape;
    assert SyncStep(s).getters == s.getters;
  }

  lemma StepKeepsSolo(s: State, ev: Event)
    requires Shape(s) && Solo(s) && OnVcpu(s, ev)
    ensures Solo(Step(s, ev))
  {
    hide Capture, Restore, Matches, SameCore, ZeroMap, ValidMachine, Shape, SyncStep;
    match ev
    case SyncTurn => SyncTurnKeepsSolo(s);
    case Attempt(_) => GettingKeepsSolo(s, ev);
    case FinishCopy(_) => GettingKeepsSolo(s, ev);
    case _ =>
  }

  lemma {:induction false} RunKeepsSolo(at: Machine, policy: Policy, evs: seq<Event>)
    requires ValidMachine(at) && Pairs(policy.ranges) && AllOnVcpu(Init(at, policy), evs)
    ensures Solo(Run(Init(at, policy), evs))
  {
    hide Step, OnVcpu, Shape, Pairs, ValidMachine;
    if evs != [] {
      RunKeepsSolo(at, policy, evs[..|evs| - 1]);
      StepKeepsSolo(Run(Init(at, policy), evs[..|evs| - 1]), evs[|evs| - 1]);
    } else {
      assert Run(Init(at, policy), []) == Init(at, policy);
    }
  }

  /** With injection on the vCPU thread, every DONE that no fatal assert sent is for a taken message. */
  lemma EveryDoneIsTaken(at: Machine, policy: Policy, evs: seq<Event>, k: nat)
    requires ValidMachine(at) && Pairs(policy.ranges) && AllOnVcpu(Init(at, policy), evs)
    requires forall ev | ev in evs :: NonZero(ev)
    requires k < |Run(Init(at, policy), evs).log|
    ensures var item := Run(Init(at, policy), evs).log[k]; item.Done? && !item.fatal ==> item.taken
  {
    hide Step, OnVcpu, Shape, Pairs, ValidMachine, HandshakeInv;
    var s := Run(Init(at, policy), evs);
    if s.log[k].Done? && !s.log[k].fatal {
      RunKeepsSolo(at, policy, evs);
      RunKeepsHandshake(at, policy, evs);
      assert s.log[k] in s.log;
      var i := DoneAnswersItsInput(s.log, k, at, policy);
    }
  }

  lemma Next(s0: State, evs: seq<Event>, ev: Event)
    requires Shape(s0)
    ensures Run(s0, evs + [ev]) == Step(Run(s0, evs), ev)
  {
    assert (evs + [ev])[..|evs|] == evs;
  }
}
