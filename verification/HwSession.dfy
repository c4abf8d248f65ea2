// The hardware session (device_models/common/hw_session.c:62-110, 282-306): a poll thread that captures
// the interrupts of a physical board and raises them in QEMU, and a serve callback that acknowledges
// them. One step is one region under hw_mutex, or one action outside it.
module HwSession {
  import opened CInts

  const IRQ_FIRING_LINE_MIN := 1
  const IRQ_FIRING_LINE_MAX := 240
  const IRQ_QEMU_VECTOR_BASE := 16

  /** The board: it runs its own firmware until it halts, and keeps its registers while halted. */
  datatype Board = Board(halted: bool, r0: nat, r1: int)

  datatype PollPc =
    | Locking                   // about to take the mutex
    | Parked(signalled: bool)   // in pthread_cond_wait
    | Raising(line: int)        // the mutex is released, the interrupt not raised yet
    | Sleeping

  datatype Item =
    | Halted(r0: nat)
    | Captured(line: int)
    | Spurious(line: int)
    | Raised(vector: int)
    | Acked(r1: int)

  datatype State = State(board: Board, pending: int, poll: PollPc, log: seq<Item>)

  datatype Event =
    | BoardHalts(r0: nat)
    | PollTurn
    | SpuriousWake
    | Serve

  predicate InRange(line: int) {
    IRQ_FIRING_LINE_MIN <= line <= IRQ_FIRING_LINE_MAX
  }

  /** A session over a board that may already be halted. */
  function Init(board: Board): State {
    State(board, 0, Locking, if board.halted then [Halted(board.r0)] else [])
  }

  /** The region the poll thread runs with the mutex held. */
  function Examine(s: State): State {
    if s.pending != 0 then s.(poll := Parked(false))
    else if !s.board.halted then s.(poll := Sleeping)
    else
      var line := AsInt(s.board.r0);
      if InRange(line) then s.(pending := line, poll := Raising(line), log := s.log + [Captured(line)])
      else s.(board := s.board.(halted := false), poll := Sleeping, log := s.log + [Spurious(line)])
  }

  function Step(s: State, ev: Event): State {
    match ev
    case BoardHalts(r0) =>
      if s.board.halted then s else s.(board := s.board.(halted := true, r0 := r0), log := s.log + [Halted(r0)])
    case PollTurn =>
      (match s.poll
       case Locking => Examine(s)
       case Parked(signalled) => if signalled then Examine(s) else s
       case Raising(line) => s.(poll := Locking, log := s.log + [Raised(line + IRQ_QEMU_VECTOR_BASE)])
       case Sleeping => s.(poll := Locking))
    case SpuriousWake => if s.poll.Parked? then Examine(s) else s
    case Serve =>
      if s.pending == 0 then s
      else s.(board := s.board.(halted := false, r1 := s.pending), pending := 0,
              poll := if s.poll.Parked? then Parked(true) else s.poll,
              log := s.log + [Acked(s.pending)])
  }

  function Run(s: State, evs: seq<Event>): State {
    if evs == [] then s else Step(Run(s, evs[..|evs| - 1]), evs[|evs| - 1])
  }

  // ----- readings of the log -----

  function Captures(log: seq<Item>): seq<int> {
    if log == [] then []
    else
      var last := log[|log| - 1];
      Captures(log[..|log| - 1]) + if last.Captured? then [last.line] else []
  }

  function Acks(log: seq<Item>): seq<int> {
    if log == [] then []
    else
      var last := log[|log| - 1];
      Acks(log[..|log| - 1]) + if last.Acked? then [last.r1] else []
  }

  /** The lines behind the raised vectors. */
  function Raises(log: seq<Item>): seq<int> {
    if log == [] then []
    else
      var last := log[|log| - 1];
      Raises(log[..|log| - 1]) + if last.Raised? then [last.vector - IRQ_QEMU_VECTOR_BASE] else []
  }

  /** What the board halted with. */
  function Halts(log: seq<Item>): seq<int> {
    if log == [] then []
    else
      var last := log[|log| - 1];
      Halts(log[..|log| - 1]) + if last.Halted? then [AsInt(last.r0)] else []
  }

  /** The halts the poll thread looked at, captured or not. */
  function Examined(log: seq<Item>): seq<int> {
    if log == [] then []
    else
      var last := log[|log| - 1];
      Examined(log[..|log| - 1]) + if last.Captured? || last.Spurious? then [last.line] else []
  }

  function Valid(lines: seq<int>): seq<int> {
    if lines == [] then []
    else
      var last := lines[|lines| - 1];
      Valid(lines[..|lines| - 1]) + if InRange(last) then [last] else []
  }

  // ----- conservation -----

  /** Interrupts are neither lost nor invented: what was captured is what was acknowledged plus what is
      pending, in order; what was raised is what was captured but for one raise under way; what the board
      halted with is what was examined plus an unexamined halt; and captures are the valid halts. */
  ghost predicate Conserved(s: State) {
    && Captures(s.log) == (if s.pending == 0 then Acks(s.log) else Acks(s.log) + [s.pending])
    && Captures(s.log) == (if s.poll.Raising? then Raises(s.log) + [s.poll.line] else Raises(s.log))
    && Halts(s.log) == (if s.board.halted && s.pending == 0 then Examined(s.log) + [AsInt(s.board.r0)]
                        else Examined(s.log))
    && Captures(s.log) == Valid(Examined(s.log))
  }

  ghost predicate Inv(s: State) {
    && Conserved(s)
    && (s.pending != 0 ==> InRange(s.pending) && s.board.halted && s.pending == AsInt(s.board.r0))
    && (s.poll == Parked(false) ==> s.pending != 0)
    && (Acks(s.log) != [] ==> s.board.r1 == Acks(s.log)[|Acks(s.log)| - 1])
  }

  lemma LogGrows(log: seq<Item>, item: Item)
    ensures Captures(log + [item]) == if item.Captured? then Captures(log) + [item.line] else Captures(log)
    ensures Acks(log + [item]) == if item.Acked? then Acks(log) + [item.r1] else Acks(log)
    ensures Raises(log + [item]) ==
            if item.Raised? then Raises(log) + [item.vector - IRQ_QEMU_VECTOR_BASE] else Raises(log)
    ensures Halts(log + [item]) == if item.Halted? then Halts(log) + [AsInt(item.r0)] else Halts(log)
    ensures Examined(log + [item]) ==
            if item.Captured? || item.Spurious? then Examined(log) + [item.line] else Examined(log)
  {
    hide AsInt;
    assert (log + [item])[..|log|] == log;
  }

  lemma ValidGrows(lines: seq<int>, line: int)
    ensures Valid(lines + [line]) == if InRange(line) then Valid(lines) + [line] else Valid(lines)
  {
    assert (lines + [line])[..|lines|] == lines;
  }

  lemma ExamineKeepsInv(s: State)
    requires Inv(s) && !s.poll.Raising?
    ensures Inv(Examine(s))
  {
    hide AsInt, Captures, Acks, Raises, Halts, Examined, Valid;
    var line := AsInt(s.board.r0);
    LogGrows(s.log, Captured(line));
    LogGrows(s.log, Spurious(line));
    ValidGrows(Examined(s.log), line);
  }

  lemma RaiseKeepsInv(s: State)
    requires Inv(s) && s.poll.Raising?
    ensures Inv(Step(s, PollTurn))
  {
    hide AsInt, Captures, Acks, Raises, Halts, Examined, Valid, Examine;
    LogGrows(s.log, Raised(s.poll.line + IRQ_QEMU_VECTOR_BASE));
    var log := Step(s, PollTurn).log;
    assert Captures(log) == Captures(s.log) && Raises(log) == Raises(s.log) + [s.poll.line];
    assert Acks(log) == Acks(s.log) && Halts(log) == Halts(s.log) && Examined(log) == Examined(s.log);
  }

  lemma StepKeepsInv(s: State, ev: Event)
    requires Inv(s)
    ensures Inv(Step(s, ev))
  {
    hide AsInt, Captures, Acks, Raises, Halts, Examined, Valid, Examine;
    match ev
    case BoardHalts(r0) =>
      LogGrows(s.log, Halted(r0));
    case Serve =>
      LogGrows(s.log, Acked(s.pending));
    case PollTurn =>
      if s.poll.Raising? {
        RaiseKeepsInv(s);
      } else {
        ExamineKeepsInv(s);
      }
    case SpuriousWake =>
      if s.poll.Parked? {
        ExamineKeepsInv(s);
      }
  }

  lemma InitInv(board: Board)
    ensures Inv(Init(board))
  {
    EmptyLog();
    hide AsInt, Captures, Acks, Raises, Halts, Examined, Valid;
    if board.halted {
      assert [] + [Halted(board.r0)] == [Halted(board.r0)];
      LogGrows([], Halted(board.r0));
    }
  }

  lemma EmptyLog()
    ensures Captures([]) == Acks([]) == Raises([]) == Halts([]) == Examined([]) == Valid([]) == []
  {
  }

  /** In every reachable state, over all interleavings and spurious wake-ups. */
  lemma {:induction false} RunConservesInterrupts(board: Board, evs: seq<Event>)
    ensures Inv(Run(Init(board), evs))
  {
    hide Step, Inv;
    if evs == [] {
      InitInv(board);
    } else {
      RunConservesInterrupts(board, evs[..|evs| - 1]);
      StepKeepsInv(Run(Init(board), evs[..|evs| - 1]), evs[|evs| - 1]);
    }
  }

  /** Every line in a filtered list is one the monitor can fire. */
  lemma {:induction false} ValidAreInRange(lines: seq<int>, k: nat)
    requires k < |Valid(lines)|
    ensures InRange(Valid(lines)[k])
  {
    var before := lines[..|lines| - 1];
    if k < |Valid(before)| {
      ValidAreInRange(before, k);
    }
  }

  /** The same as counts and prefixes: the k-th acknowledgement wrote the k-th captured line to R1, the
      k-th raise is for the k-th capture, raises lag by one at most, and nothing out of range is in any. */
  lemma CountsAndPrefixes(board: Board, evs: seq<Event>)
    ensures var s := Run(Init(board), evs);
            && Acks(s.log) <= Captures(s.log) && Raises(s.log) <= Captures(s.log)
            && |Acks(s.log)| + (if s.pending != 0 then 1 else 0) == |Captures(s.log)|
            && |Captures(s.log)| <= |Raises(s.log)| + 1
            && (forall k | 0 <= k < |Captures(s.log)| :: InRange(Captures(s.log)[k]))
            && (s.poll == Parked(false) ==> s.pending != 0)
  {
    hide Run, Captures, Acks, Raises, Halts, Examined, Valid;
    var s := Run(Init(board), evs);
    RunConservesInterrupts(board, evs);
    forall k | 0 <= k < |Captures(s.log)| ensures InRange(Captures(s.log)[k]) {
      ValidAreInRange(Examined(s.log), k);
    }
  }

  /** A second serve changes nothing. */
  lemma ServeIsIdempotent(s: State)
    ensures Step(Step(s, Serve), Serve) == Step(s, Serve)
  {
  }

  // ----- progress -----

  /** The board is halted on a line it can fire, and nothing is pending. */
  predicate HaltWaits(s: State) {
    s.pending == 0 && s.board.halted && 1 <= AsInt(s.board.r0) <= 240
  }

  /** How many turns of the poll thread it takes at most to capture a waiting halt. */
  function Distance(s: State): (n: nat)
    ensures n <= 2
  {
    if s.poll.Locking? || s.poll.Parked? then 1 else 2
  }

  function PollTurns(evs: seq<Event>): (n: nat)
    ensures n <= |evs|
  {
    if evs == [] then 0 else PollTurns(evs[..|evs| - 1]) + if evs[|evs| - 1].PollTurn? then 1 else 0
  }

  /** The halt that waits in s still waits in s', at most as far from being captured as said. */
  predicate StillWaits(s: State, s': State, distance: int) {
    && Captures(s'.log) == Captures(s.log) && HaltWaits(s') && s'.board.r0 == s.board.r0
    && Distance(s') <= distance
  }

  lemma ExamineCaptures(s: State)
    requires HaltWaits(s)
    ensures Captures(Examine(s).log) == Captures(s.log) + [AsInt(s.board.r0)]
  {
    hide Captures, AsInt;
    LogGrows(s.log, Captured(AsInt(s.board.r0)));
  }

  lemma TurnGetsCloser(s: State)
    requires Inv(s) && HaltWaits(s)
    ensures Captures(Step(s, PollTurn).log) == Captures(s.log) + [AsInt(s.board.r0)] ||
            StillWaits(s, Step(s, PollTurn), Distance(s) - 1)
  {
    hide Conserved, Captures, AsInt, InRange, Examine;
    match s.poll
    case Raising(line) => RaisingGetsCloser(s);
    case Sleeping =>
    case _ => ExamineCaptures(s);
  }

  lemma RaisingGetsCloser(s: State)
    requires s.poll.Raising? && HaltWaits(s)
    ensures StillWaits(s, Step(s, PollTurn), 1)
  {
    hide Captures, AsInt, InRange, Examine;
    LogGrows(s.log, Raised(s.poll.line + IRQ_QEMU_VECTOR_BASE));
  }

  /** With a halt waiting, a step captures it or leaves it waiting no further away. */
  lemma StepGetsCloser(s: State, ev: Event)
    requires Inv(s) && HaltWaits(s)
    ensures Captures(Step(s, ev).log) == Captures(s.log) + [AsInt(s.board.r0)] ||
            StillWaits(s, Step(s, ev), Distance(s) - if ev.PollTurn? then 1 else 0)
  {
    hide Inv, Captures, AsInt, InRange, Examine;
    match ev
    case PollTurn => TurnGetsCloser(s);
    case SpuriousWake => ExamineCaptures(s);
    case _ =>
  }

  lemma CapturesStay(s: State, ev: Event)
    ensures Captures(s.log) <= Captures(Step(s, ev).log)
  {
    hide Captures, Step;
    var log := Step(s, ev).log;
    OneItemAtMost(s, ev);
    if log != s.log {
      LogGrows(s.log, log[|s.log|]);
      assert log == s.log + [log[|s.log|]];
    }
  }

  lemma OneItemAtMost(s: State, ev: Event)
    ensures var log := Step(s, ev).log;
            log == s.log || (|log| == |s.log| + 1 && log[..|s.log|] == s.log)
  {
    hide AsInt;
  }

  lemma {:induction false} StepsKeepInv(s: State, evs: seq<Event>)
    requires Inv(s)
    ensures Inv(Run(s, evs))
  {
    hide Inv, Step;
    if evs != [] {
      StepsKeepInv(s, evs[..|evs| - 1]);
      StepKeepsInv(Run(s, evs[..|evs| - 1]), evs[|evs| - 1]);
    }
  }

  lemma {:induction false} TurnsAreSpent(s: State, evs: seq<Event>)
    requires Inv(s) && HaltWaits(s)
    ensures var s' := Run(s, evs);
            || Captures(s.log) + [AsInt(s.board.r0)] <= Captures(s'.log)
            || StillWaits(s, s', Distance(s) - PollTurns(evs))
  {
    hide Inv, HaltWaits, Step, Captures, AsInt, Distance;
    if evs != [] {
      var init, last := evs[..|evs| - 1], evs[|evs| - 1];
      StepsKeepInv(s, init);
      TurnsAreSpent(s, init);
      var m := Run(s, init);
      if Captures(s.log) + [AsInt(s.board.r0)] <= Captures(m.log) {
        CapturesStay(m, last);
      } else {
        StepGetsCloser(m, last);
      }
    }
  }

  /** In every reachable state with nothing pending, a board halted on a line it can fire has been
      captured, as the next capture, once the poll thread had two turns, whatever happened between them:
      the thread is not parked for good. */
  lemma HaltIsCaptured(board: Board, before: seq<Event>, evs: seq<Event>)
    requires HaltWaits(Run(Init(board), before)) && PollTurns(evs) >= 2
    ensures var s := Run(Init(board), before);
            Captures(s.log) + [AsInt(s.board.r0)] <= Captures(Run(s, evs).log)
  {
    hide Inv, HaltWaits, Step, Captures, AsInt, Run;
    var s := Run(Init(board), before);
    RunConservesInterrupts(board, before);
    TurnsAreSpent(s, evs);
    assert Distance(s) >= 1 && Distance(Run(s, evs)) >= 1;
  }

  // ----- the session object -----

  class Session {
    var board: Board
    var irqPending: int
    ghost var poll: PollPc
    ghost var log: seq<Item>

    ghost function Model(): State
      reads this
    {
      State(board, irqPending, poll, log)
    }

    constructor (probe: Board)
      ensures Model() == Init(probe)
    {
      board, irqPending := probe, 0;
      poll, log := Locking, if probe.halted then [Halted(probe.r0)] else [];
    }

    /** The region of the poll loop under the mutex, for a thread that has it. The result is the line to
        raise once the mutex is released, 0 for none. */
    method PollRegion() returns (fire: int)
      requires poll.Locking? || poll == Parked(true)
      modifies this
      ensures Model() == Step(old(Model()), PollTurn)
      ensures fire != 0 <==> poll.Raising?
      ensures fire != 0 ==> fire == irqPending == poll.line && InRange(fire) && board == old(board)
    {
      hide AsInt;
      fire := 0;
      if irqPending != 0 {
        poll := Parked(false);
        return;
      }
      if board.halted {
        var firingLine := AsInt(board.r0);
        if firingLine < IRQ_FIRING_LINE_MIN || firingLine > IRQ_FIRING_LINE_MAX {
          board := board.(halted := false);
          poll, log := Sleeping, log + [Spurious(firingLine)];
          return;
        }
        irqPending, fire := firingLine, firingLine;
        poll, log := Raising(firingLine), log + [Captured(firingLine)];
      } else {
        poll := Sleeping;
      }
    }

    /** qemu_plugin_raise_irq with the vector of the captured line. */
    method Raise(fire: int) returns (vector: int)
      requires poll == Raising(fire)
      modifies this`poll, this`log
      ensures Model() == Step(old(Model()), PollTurn)
      ensures vector == fire + IRQ_QEMU_VECTOR_BASE
    {
      vector := fire + IRQ_QEMU_VECTOR_BASE;
      poll, log := Locking, log + [Raised(vector)];
    }

    /** hw_session_serve: the captured line goes to R1, the board runs on, the poll thread is signalled. */
    method ServeIrq(qemuLine: int)
      modifies this
      ensures Model() == Step(old(Model()), Serve)
      ensures irqPending == 0
      ensures old(irqPending) != 0 ==> board.r1 == old(irqPending) && !board.halted
      ensures old(irqPending) == 0 ==> board == old(board)
    {
      if irqPending == 0 {
        return;
      }
      board := board.(halted := false, r1 := irqPending);
      log := log + [Acked(irqPending)];
      irqPending := 0;
      poll := if poll.Parked? then Parked(true) else poll;
    }
  }
}
