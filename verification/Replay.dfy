// Replay of a recorded tape (device_models/twintrace/twintrace.c): vCPU callbacks consume the tape
// while one interrupt thread raises its IRQ_TAKEN records, gated on the instruction count.
// One step is one region under rep_mutex, one wait, or one access made outside the mutex.
module Replay {
  import opened CInts
  import opened TapeFormat

  const IGNORED_LINE: int32 := 15

  /** The C conversion (uint64_t)line. */
  function AsU64(line: int32): (n: nat)
    ensures n < U64 && (n - line) % U64 == 0
  {
    if line < 0 then U64 + line else line
  }

  datatype Strictness = Strictness(addr: bool, size: bool, pc: bool, value: bool)

  const DEFAULT_STRICTNESS := Strictness(true, true, false, true)

  datatype Call =
    | Read(address: nat, size: nat, pc: nat)
    | Write(address: nat, value: nat, size: nat, pc: nat)
    | Taken(line: int32)
    | Served(line: int32)

  datatype ThreadPc =
    | AtHead                                   // about to lock and look at the head record
    | ParkedAtHead(woken: bool)                // in the first condition wait
    | Gate(at: nat)                            // about to read the instruction count
    | Recheck(at: nat)                         // count too low: about to lock, look and sleep
    | Confirm(at: nat, seen: nat)              // count reached: about to lock and look again
    | Raising(at: nat, seen: nat)              // unlocked, about to raise the interrupt
    | AfterRaise(at: nat)                      // about to lock after raising
    | ParkedAfterRaise(at: nat, woken: bool)   // in the second condition wait
    | Finished

  /** An accepted callback with what the firmware got back. */
  datatype Entry = Entry(call: Call, answer: nat)

  /** A raised interrupt: its record, its line, the counter value that opened its gate, the head when it was raised. */
  datatype Raised = Raised(index: nat, line: int32, seen: nat, head: nat)

  datatype State = State(
    tape: seq<Record>,
    strict: Strictness,
    idx: nat,
    executed: nat,            // instructions retired; g_icount is this modulo 2^64
    thread: ThreadPc,
    pending: set<int32>,      // lines raised and not yet delivered by QEMU
    asked: seq<Call>,         // every callback that was not ignored
    log: seq<Entry>,          // every callback that was accepted
    raises: seq<Raised>,
    aborted: bool)

  datatype Event =
    | Callback(call: Call)
    | ThreadTurn
    | SpuriousWake
    | Retire(n: word)

  function Init(tape: seq<Record>): State {
    State(tape, DEFAULT_STRICTNESS, 0, 0, AtHead, {}, [], [], [], false)
  }

  function Icount(s: State): nat {
    s.executed % U64
  }

  predicate Ignored(call: Call) {
    (call.Taken? || call.Served?) && call.line == IGNORED_LINE
  }

  predicate Accepts(strict: Strictness, e: Record, call: Call) {
    match call
    case Read(address, size, pc) =>
      && e.kind == TT_R
      && (strict.addr ==> e.addr == address)
      && (strict.size ==> e.size == size)
      && (strict.pc ==> e.pc == pc)
    case Write(address, value, size, pc) =>
      && e.kind == TT_W
      && (strict.addr ==> e.addr == address)
      && (strict.size ==> e.size == size)
      && (strict.pc ==> e.pc == pc)
      && (strict.value ==> e.value == value)
    case Taken(line) => e.kind == TT_IRQ_TAKEN && e.addr == AsU64(line)
    case Served(line) => e.kind == TT_IRQ_SERVED && e.addr == AsU64(line)
  }

  function Answer(e: Record, call: Call): nat {
    if call.Read? then e.value else 0
  }

  /** A condition broadcast (or a spurious wake-up): whoever waits may return from the wait. */
  function Wake(t: ThreadPc): ThreadPc {
    match t
    case ParkedAtHead(_) => ParkedAtHead(true)
    case ParkedAfterRaise(at, _) => ParkedAfterRaise(at, true)
    case _ => t
  }

  predicate IndexOk(s: State) {
    match s.thread
    case Gate(at) => at < |s.tape|
    case Recheck(at) => at < |s.tape|
    case Confirm(at, _) => at < |s.tape|
    case Raising(at, _) => at < |s.tape|
    case _ => true
  }

  function LookAtHead(s: State): ThreadPc {
    if s.idx >= |s.tape| then Finished
    else if s.tape[s.idx].kind == TT_IRQ_TAKEN then Gate(s.idx)
    else ParkedAtHead(false)
  }

  /** Where the thread goes in its turn. */
  function NextPc(s: State): ThreadPc
    requires IndexOk(s)
  {
    match s.thread
    case AtHead => LookAtHead(s)
    case ParkedAtHead(woken) => if woken then LookAtHead(s) else s.thread
    case Gate(at) => if Icount(s) < s.tape[at].icount then Recheck(at) else Confirm(at, Icount(s))
    case Recheck(at) => if s.idx != at then AtHead else Gate(at)
    case Confirm(at, seen) => if s.idx != at then AtHead else Raising(at, seen)
    case Raising(at, _) => AfterRaise(at)
    case AfterRaise(at) => if s.idx == at then ParkedAfterRaise(at, false) else AtHead
    case ParkedAfterRaise(at, woken) =>
      if !woken then s.thread else if s.idx == at then ParkedAfterRaise(at, false) else AtHead
    case Finished => Finished
  }

  function TakeTurn(s: State): State
    requires IndexOk(s)
  {
    if s.thread.Raising? then
      var at := s.thread.at;
      var line := AsInt(s.tape[at].addr);
      s.(thread := NextPc(s), pending := s.pending + {line},
         raises := s.raises + [Raised(at, line, s.thread.seen, s.idx)])
    else s.(thread := NextPc(s))
  }

  function Deliver(s: State, call: Call): State {
    var s := if call.Taken? then s.(pending := s.pending - {call.line}) else s;
    if Ignored(call) then s
    else
      var s := s.(asked := s.asked + [call]);
      if s.idx < |s.tape| && Accepts(s.strict, s.tape[s.idx], call) then
        s.(idx := s.idx + 1, thread := Wake(s.thread), log := s.log + [Entry(call, Answer(s.tape[s.idx], call))])
      else s.(aborted := true)
  }

  /** Every interleaving is one sequence of events; a refused callback marks the run and changes nothing else. */
  function Step(s: State, ev: Event): (s': State)
    requires IndexOk(s)
    ensures IndexOk(s')
  {
    match ev
    case Callback(call) => Deliver(s, call)
    case ThreadTurn => TakeTurn(s)
    case SpuriousWake => s.(thread := Wake(s.thread))
    case Retire(n) => s.(executed := s.executed + n)
  }

  function Run(s: State, evs: seq<Event>): (s': State)
    requires IndexOk(s)
    ensures IndexOk(s')
    decreases |evs|
  {
    if evs == [] then s else Step(Run(s, evs[..|evs| - 1]), evs[|evs| - 1])
  }

  // ----- the tape prefix -----

  ghost predicate PrefixInv(s: State) {
    && s.idx == |s.log| <= |s.tape|
    && (forall i | 0 <= i < s.idx ::
          && !Ignored(s.log[i].call)
          && Accepts(s.strict, s.tape[i], s.log[i].call)
          && s.log[i].answer == Answer(s.tape[i], s.log[i].call))
    && (!s.aborted ==> |s.asked| == s.idx && forall i | 0 <= i < s.idx :: s.asked[i] == s.log[i].call)
  }

  lemma DeliverKeepsPrefixInv(s: State, call: Call)
    requires PrefixInv(s)
    ensures PrefixInv(Deliver(s, call))
  {
    hide Accepts, Wake;
    var s' := Deliver(s, call);
    if s'.idx != s.idx {
      assert s'.log == s.log + [Entry(call, Answer(s.tape[s.idx], call))];
      assert forall i | 0 <= i < s.idx :: s'.log[i] == s.log[i];
      assert s'.asked == s.asked + [call];
    } else {
      assert s'.log == s.log && (s'.aborted || s'.asked == s.asked);
    }
  }

  /** The record says what was done, field by field, and the firmware got back what it says. */
  predicate Tells(e: Record, entry: Entry) {
    match entry.call
    case Read(address, size, _) => e.kind == TT_R && e.addr == address && e.size == size && entry.answer == e.value
    case Write(address, value, size, _) => e.kind == TT_W && e.addr == address && e.size == size && e.value == value
    case Taken(line) => e.kind == TT_IRQ_TAKEN && e.addr < U64 && (e.addr - line) % U64 == 0 && line != 15
    case Served(line) => e.kind == TT_IRQ_SERVED && e.addr < U64 && (e.addr - line) % U64 == 0 && line != 15
  }

  /**
   * Over every interleaving the accepted callbacks are the tape prefix of length idx, record by record and
   * field by field, each answered from the tape; a run that has not aborted has accepted every callback it
   * was asked.
   */
  lemma RunAcceptsTapePrefix(tape: seq<Record>, evs: seq<Event>)
    ensures var s := Run(Init(tape), evs);
            && s.idx == |s.log| <= |tape|
            && (forall i | 0 <= i < s.idx :: Tells(tape[i], s.log[i]))
            && (!s.aborted ==> |s.asked| == s.idx && forall i | 0 <= i < s.idx :: s.asked[i] == s.log[i].call)
  {
    RunKeepsPrefixInv(tape, evs);
    var s := Run(Init(tape), evs);
    forall i | 0 <= i < s.idx ensures Tells(tape[i], s.log[i]) {
      AcceptedTells(tape[i], s.log[i].call);
    }
  }

  lemma AcceptedTells(e: Record, call: Call)
    requires !Ignored(call) && Accepts(DEFAULT_STRICTNESS, e, call)
    ensures Tells(e, Entry(call, Answer(e, call)))
  {
  }

  /** A callback that is not ignored and finds a record that does not tell it ends the run, and only such a one. */
  lemma RefusedIff(tape: seq<Record>, evs: seq<Event>, call: Call)
    requires !Run(Init(tape), evs).aborted
    ensures var s, s' := Run(Init(tape), evs), Step(Run(Init(tape), evs), Callback(call));
            s'.aborted <==>
            !((call.Taken? || call.Served?) && call.line == 15) &&
            !(s.idx < |tape| && exists answer :: Tells(tape[s.idx], Entry(call, answer)))
  {
    RunKeepsPrefixInv(tape, evs);
    var s := Run(Init(tape), evs);
    if s.idx < |tape| && !Ignored(call) {
      if Accepts(DEFAULT_STRICTNESS, tape[s.idx], call) {
        AcceptedTells(tape[s.idx], call);
      } else if answer :| Tells(tape[s.idx], Entry(call, answer)) {
        TellingIsAccepted(tape[s.idx], Entry(call, answer));
        assert false;
      }
    }
  }

  lemma TellingIsAccepted(e: Record, entry: Entry)
    requires Tells(e, entry)
    ensures !Ignored(entry.call) && Accepts(DEFAULT_STRICTNESS, e, entry.call)
  {
    if entry.call.Taken? || entry.call.Served? {
      SameModulo(e.addr, AsU64(entry.call.line), entry.call.line);
    }
  }

  lemma SameModulo(a: nat, b: nat, line: int)
    requires a < U64 && b < U64 && (a - line) % U64 == 0 && (b - line) % U64 == 0
    ensures a == b
  {
  }

  lemma {:induction false} RunKeepsPrefixInv(tape: seq<Record>, evs: seq<Event>)
    ensures var s := Run(Init(tape), evs);
            s.tape == tape && s.strict == DEFAULT_STRICTNESS && PrefixInv(s)
  {
    if evs == [] {
      assert Run(Init(tape), evs) == Init(tape);
    } else {
      hide PrefixInv, TakeTurn, Accepts;
      RunKeepsPrefixInv(tape, evs[..|evs| - 1]);
      var s := Run(Init(tape), evs[..|evs| - 1]);
      match evs[|evs| - 1]
      case Callback(call) => DeliverKeepsPrefixInv(s, call);
      case _ => OthersKeepPrefixInv(s, evs[|evs| - 1]);
    }
  }

  lemma OthersKeepPrefixInv(s: State, ev: Event)
    requires IndexOk(s) && PrefixInv(s) && !ev.Callback?
    ensures PrefixInv(Step(s, ev)) && Step(s, ev).tape == s.tape && Step(s, ev).strict == s.strict
  {
    hide Accepts, Wake, AsInt, LookAtHead, Answer, Ignored;
    var s' := Step(s, ev);
    assert s'.log == s.log && s'.asked == s.asked && s'.idx == s.idx && s'.aborted == s.aborted;
  }

  /** What a recorded access fixes about the callback: everything but the program counter. */
  predicate SameAccess(a: Call, b: Call) {
    match a
    case Read(address, size, _) => b.Read? && b.address == address && b.size == size
    case Write(address, value, size, _) => b.Write? && b.address == address && b.value == value && b.size == size
    case Taken(line) => b == a
    case Served(line) => b == a
  }

  /** Two schedules that consumed equally many records made the same accesses and saw the same values. */
  lemma SchedulesAgree(tape: seq<Record>, evs1: seq<Event>, evs2: seq<Event>)
    requires Run(Init(tape), evs1).idx == Run(Init(tape), evs2).idx
    ensures var s1, s2 := Run(Init(tape), evs1), Run(Init(tape), evs2);
            && |s1.log| == |s2.log| == s1.idx
            && (forall i | 0 <= i < s1.idx ::
                  SameAccess(s1.log[i].call, s2.log[i].call) && s1.log[i].answer == s2.log[i].answer)
            && (!s1.aborted && !s2.aborted ==>
                  |s1.asked| == |s2.asked| && forall i | 0 <= i < |s1.asked| :: SameAccess(s1.asked[i], s2.asked[i]))
  {
    RunKeepsPrefixInv(tape, evs1);
    RunKeepsPrefixInv(tape, evs2);
    var s1, s2 := Run(Init(tape), evs1), Run(Init(tape), evs2);
    forall i | 0 <= i < s1.idx
      ensures SameAccess(s1.log[i].call, s2.log[i].call) && s1.log[i].answer == s2.log[i].answer
    {
      AcceptsFixesAccess(tape[i], s1.log[i].call, s2.log[i].call);
    }
  }

  lemma AcceptsFixesAccess(e: Record, a: Call, b: Call)
    requires Accepts(DEFAULT_STRICTNESS, e, a) && Accepts(DEFAULT_STRICTNESS, e, b)
    ensures SameAccess(a, b)
  {
  }

  // ----- the interrupt thread -----

  /** Record k of the tape is an interrupt to raise, and the head has reached it. */
  predicate Due(tape: seq<Record>, idx: nat, k: nat) {
    k <= idx && k < |tape| && tape[k].kind == TT_IRQ_TAKEN
  }

  /** The gate for record k opened on the counter value `seen`, which has not gone down since unless the counter wrapped. */
  predicate Opened(s: State, k: nat, seen: nat) {
    Due(s.tape, s.idx, k) && s.tape[k].icount <= seen && (s.executed < U64 ==> seen <= s.executed)
  }

  /** The interrupt raised was that of a due record, after its instruction count. */
  predicate GoodRaise(tape: seq<Record>, idx: nat, executed: nat, r: Raised) {
    && Due(tape, idx, r.index)
    && tape[r.index].icount <= r.seen
    && (executed < U64 ==> r.seen <= executed)
    && r.line == AsInt(tape[r.index].addr)
    && r.index <= r.head <= idx
  }

  ghost predicate RaisesInv(tape: seq<Record>, idx: nat, executed: nat, raises: seq<Raised>) {
    && (forall i, j | 0 <= i < j < |raises| :: raises[i].index < raises[j].index)
    && (forall i | 0 <= i < |raises| :: GoodRaise(tape, idx, executed, raises[i]))
  }

  /** Every record raised so far lies below bound. */
  predicate RaisedBelow(raises: seq<Raised>, bound: nat) {
    forall i | 0 <= i < |raises| :: raises[i].index < bound
  }

  predicate LastRaised(raises: seq<Raised>, k: nat) {
    |raises| > 0 && raises[|raises| - 1].index == k
  }

  ghost predicate ThreadInv(s: State) {
    && IndexOk(s)
    && RaisesInv(s.tape, s.idx, s.executed, s.raises)
    && match s.thread
       case AtHead => RaisedBelow(s.raises, s.idx)
       case ParkedAtHead(woken) =>
         RaisedBelow(s.raises, s.idx) && (!woken ==> s.idx < |s.tape| && s.tape[s.idx].kind != TT_IRQ_TAKEN)
       case Gate(at) => Due(s.tape, s.idx, at) && RaisedBelow(s.raises, at)
       case Recheck(at) => Due(s.tape, s.idx, at) && RaisedBelow(s.raises, at)
       case Confirm(at, seen) => Opened(s, at, seen) && RaisedBelow(s.raises, at)
       case Raising(at, seen) => Opened(s, at, seen) && RaisedBelow(s.raises, at)
       case AfterRaise(at) => LastRaised(s.raises, at)
       case ParkedAfterRaise(at, woken) => LastRaised(s.raises, at) && (!woken ==> s.idx == at)
       case Finished => RaisedBelow(s.raises, s.idx) && s.idx == |s.tape|
  }

  /** Anything but the thread's own turn leaves the raises alone, moves the head forward and wakes the thread if it moved. */
  lemma OthersKeepThreadInv(s: State, s': State)
    requires ThreadInv(s)
    requires s'.tape == s.tape && s'.raises == s.raises
    requires s.idx <= s'.idx <= |s.tape| && s.executed <= s'.executed
    requires s'.thread == Wake(s.thread) || (s'.thread == s.thread && s'.idx == s.idx)
    ensures ThreadInv(s')
  {
    RaisesStayGood(s.tape, s.idx, s.executed, s'.idx, s'.executed, s.raises);
    hide RaisesInv, GoodRaise, LastRaised;
    assert forall k | Due(s.tape, s.idx, k) :: Due(s.tape, s'.idx, k);
    assert forall b, c | b <= c && RaisedBelow(s.raises, b) :: RaisedBelow(s.raises, c);
  }

  /** Later heads and counts keep raises good. */
  lemma RaisesStayGood(tape: seq<Record>, idx: nat, executed: nat, idx': nat, executed': nat, raises: seq<Raised>)
    requires RaisesInv(tape, idx, executed, raises) && idx <= idx' && executed <= executed'
    ensures RaisesInv(tape, idx', executed', raises)
  {
    hide AsInt;
    assert forall i | 0 <= i < |raises| :: GoodRaise(tape, idx, executed, raises[i]);
  }

  lemma RaiseKeepsThreadInv(s: State)
    requires ThreadInv(s) && s.thread.Raising?
    ensures ThreadInv(TakeTurn(s))
  {
    hide AsInt;
    var s' := TakeTurn(s);
    var r := s'.raises[|s.raises|];
    assert s'.raises == s.raises + [r] && GoodRaise(s.tape, s.idx, s.executed, r);
    assert forall i | 0 <= i < |s.raises| :: s'.raises[i] == s.raises[i];
  }

  /** The head only leaves a raised record upwards. */
  lemma LastRaisedIsBelowMovedHead(s: State, k: nat)
    requires RaisesInv(s.tape, s.idx, s.executed, s.raises) && LastRaised(s.raises, k) && s.idx != k
    ensures RaisedBelow(s.raises, s.idx)
  {
    assert GoodRaise(s.tape, s.idx, s.executed, s.raises[|s.raises| - 1]);
  }

  lemma TurnKeepsThreadInv(s: State)
    requires ThreadInv(s) && s.idx <= |s.tape| && !s.thread.Raising?
    ensures ThreadInv(TakeTurn(s))
  {
    hide RaisesInv, GoodRaise, RaisedBelow, LastRaised, AsInt;
    match s.thread
    case AtHead => LookingKeepsThreadInv(s);
    case ParkedAtHead(woken) => LookingKeepsThreadInv(s);
    case AfterRaise(at) => if s.idx != at { LastRaisedIsBelowMovedHead(s, at); }
    case ParkedAfterRaise(at, woken) => if s.idx != at { LastRaisedIsBelowMovedHead(s, at); }
    case _ => GateKeepsThreadInv(s);
  }

  lemma LookingKeepsThreadInv(s: State)
    requires ThreadInv(s) && s.idx <= |s.tape| && (s.thread.AtHead? || s.thread.ParkedAtHead?)
    ensures ThreadInv(TakeTurn(s))
  {
    hide RaisesInv, GoodRaise, RaisedBelow, LastRaised, AsInt;
  }

  /** A gate entered at the head is left open, or the head has moved on. */
  lemma GateKeepsThreadInv(s: State)
    requires ThreadInv(s) && s.idx <= |s.tape|
    requires s.thread.Gate? || s.thread.Recheck? || s.thread.Confirm? || s.thread.Finished?
    ensures ThreadInv(TakeTurn(s))
  {
    hide RaisesInv, GoodRaise, LastRaised, AsInt;
    if s.thread.Recheck? || s.thread.Confirm? {
      assert s.thread.at <= s.idx;
      assert RaisedBelow(s.raises, s.thread.at) ==> RaisedBelow(s.raises, s.idx);
    }
  }

  lemma BothInvs(s: State)
    requires PrefixInv(s) && ThreadInv(s)
    ensures IndexOk(s) && s.idx <= |s.tape|
  {
  }

  lemma StepKeepsThreadInv(s: State, ev: Event)
    requires PrefixInv(s) && ThreadInv(s)
    ensures ThreadInv(Step(s, ev))
  {
    hide ThreadInv, PrefixInv, Accepts, TakeTurn, Answer, Ignored;
    assert IndexOk(s) && s.idx <= |s.tape| by { BothInvs(s); }
    match ev
    case ThreadTurn => if s.thread.Raising? { RaiseKeepsThreadInv(s); } else { TurnKeepsThreadInv(s); }
    case _ => OthersKeepThreadInv(s, Step(s, ev));
  }

  /**
   * In every run the thread raises records at strictly increasing indices, each an IRQ_TAKEN record
   * the head had reached, after its instruction count, and a thread parked without a wake-up still
   * waits for something that has not happened.
   */
  lemma {:induction false} RunKeepsThreadInv(tape: seq<Record>, evs: seq<Event>)
    ensures ThreadInv(Run(Init(tape), evs))
  {
    if evs != [] {
      RunKeepsThreadInv(tape, evs[..|evs| - 1]);
      RunKeepsPrefixInv(tape, evs[..|evs| - 1]);
      StepKeepsThreadInv(Run(Init(tape), evs[..|evs| - 1]), evs[|evs| - 1]);
    }
  }

  // ----- no wake-up is lost: the thread alone always gets to what it has to do -----

  function Turns(s: State, n: nat): (s': State)
    requires IndexOk(s)
    ensures IndexOk(s')
    decreases n
  {
    if n == 0 then s else
      var t := TakeTurn(s);
      assert IndexOk(Step(s, ThreadTurn));
      Turns(t, n - 1)
  }

  predicate IsRaised(raises: seq<Raised>, k: nat) {
    exists i :: 0 <= i < |raises| && raises[i].index == k
  }

  /** The head is an interrupt whose instruction count is reached and which was not raised yet. */
  predicate HeadWaits(s: State) {
    && s.idx < |s.tape|
    && s.tape[s.idx].kind == TT_IRQ_TAKEN
    && s.tape[s.idx].icount <= Icount(s)
    && !IsRaised(s.raises, s.idx)
  }

  /** How many turns the thread is at most away from raising the head, or from finishing at the end of the tape. */
  function Distance(s: State): nat {
    match s.thread
    case AtHead => 4
    case ParkedAtHead(_) => 4
    case Gate(at) => if at == s.idx then 3 else 6
    case Recheck(at) => if at == s.idx then 4 else 5
    case Confirm(at, _) => if at == s.idx then 2 else 5
    case Raising(at, _) => if at == s.idx then 1 else 6
    case AfterRaise(_) => 5
    case ParkedAfterRaise(_, _) => 5
    case Finished => 0
  }

  lemma TurnGetsCloser(s: State)
    requires ThreadInv(s)
    requires HeadWaits(s) || (s.idx == |s.tape| && !s.thread.Finished?)
    ensures Distance(TakeTurn(s)) < Distance(s) || LastRaised(TakeTurn(s).raises, s.idx)
  {
    match s.thread
    case AfterRaise(at) => LastIsRaised(s.raises, at);
    case ParkedAfterRaise(at, _) => LastIsRaised(s.raises, at);
    case _ =>
  }

  lemma TurnKeepsTheRest(s: State)
    requires PrefixInv(s) && ThreadInv(s)
    ensures var s' := TakeTurn(s);
            PrefixInv(s') && ThreadInv(s') && s'.tape == s.tape && s'.idx == s.idx && s'.executed == s.executed
  {
    if s.thread.Raising? { RaiseKeepsThreadInv(s); } else { TurnKeepsThreadInv(s); }
  }

  /** The interrupt thread alone raises a waiting head within six turns: it is never stuck at one. */
  lemma {:induction false} WaitingHeadGetsRaised(s: State)
    requires PrefixInv(s) && ThreadInv(s) && HeadWaits(s)
    ensures exists n :: 0 < n <= Distance(s) <= 6 && IsRaised(Turns(s, n).raises, s.idx)
    decreases Distance(s)
  {
    TurnGetsCloser(s);
    TurnKeepsTheRest(s);
    var s' := TakeTurn(s);
    if LastRaised(s'.raises, s.idx) {
      LastIsRaised(s'.raises, s.idx);
    }
    if IsRaised(s'.raises, s.idx) {
      assert Turns(s', 0) == s';
      assert IsRaised(Turns(s, 1).raises, s.idx);
    } else {
      WaitingHeadGetsRaised(s');
      var n :| 0 < n <= Distance(s') <= 6 && IsRaised(Turns(s', n).raises, s'.idx);
      assert 0 < n + 1 <= Distance(s) <= 6 && IsRaised(Turns(s, n + 1).raises, s.idx);
    }
  }

  lemma NothingRaisedPastEnd(s: State)
    requires ThreadInv(s)
    ensures !IsRaised(s.raises, |s.tape|)
  {
    forall i | 0 <= i < |s.raises|
      ensures s.raises[i].index != |s.tape|
    {
      assert GoodRaise(s.tape, s.idx, s.executed, s.raises[i]);
    }
  }

  lemma NothingRaisedPastHead(s: State, k: nat)
    requires ThreadInv(s) && s.idx < k
    ensures !IsRaised(s.raises, k)
  {
    forall i | 0 <= i < |s.raises|
      ensures s.raises[i].index != k
    {
      assert GoodRaise(s.tape, s.idx, s.executed, s.raises[i]);
    }
  }

  // ----- QEMU delivers a line of the tape only after it was raised -----

  ghost predicate TapeLine(tape: seq<Record>, line: int32) {
    exists i :: 0 <= i < |tape| && tape[i].kind == TT_IRQ_TAKEN && tape[i].addr == AsU64(line)
  }

  ghost predicate Allowed(s: State, ev: Event) {
    ev.Callback? && ev.call.Taken? && TapeLine(s.tape, ev.call.line) ==> ev.call.line in s.pending
  }

  ghost predicate Disciplined(s: State, evs: seq<Event>)
    requires IndexOk(s)
    decreases |evs|
  {
    evs == [] ||
    (Disciplined(s, evs[..|evs| - 1]) && Allowed(Run(s, evs[..|evs| - 1]), evs[|evs| - 1]))
  }

  /** The pending lines while the thread is between raising record k and seeing the head move. */
  ghost predicate PendingAfter(s: State, k: nat) {
    if s.idx != k || k >= |s.tape| then s.pending == {}
    else
      && s.pending <= {AsInt(s.tape[k].addr)}
      && (!s.aborted && AsInt(s.tape[k].addr) != IGNORED_LINE ==> s.pending == {AsInt(s.tape[k].addr)})
  }

  ghost predicate DeliveryInv(s: State) {
    && (forall i | 0 <= i < |s.raises| :: s.raises[i].head == s.raises[i].index)
    && (forall k | 0 <= k < s.idx && k < |s.tape| && s.tape[k].kind == TT_IRQ_TAKEN :: IsRaised(s.raises, k))
    && match s.thread
       case Gate(at) => s.idx == at && s.pending == {}
       case Recheck(at) => s.idx == at && s.pending == {}
       case Confirm(at, _) => s.idx == at && s.pending == {}
       case Raising(at, _) => s.idx == at && s.pending == {}
       case AfterRaise(at) => PendingAfter(s, at)
       case ParkedAfterRaise(at, _) => PendingAfter(s, at)
       case _ => s.pending == {}
  }

  lemma LineFitsRecord(line: int32)
    ensures AsInt(AsU64(line)) == line
  {
  }

  lemma LastIsRaised(raises: seq<Raised>, k: nat)
    requires LastRaised(raises, k)
    ensures IsRaised(raises, k)
  {
  }

  lemma DeliverKeepsDeliveryInv(s: State, call: Call)
    requires PrefixInv(s) && ThreadInv(s) && DeliveryInv(s) && Allowed(s, Callback(call))
    ensures DeliveryInv(Deliver(s, call))
  {
    hide RaisesInv, RaisedBelow, AsInt, AsU64, PrefixInv, Accepts, Answer, Ignored, Allowed;
    BothInvs(s);
    var s' := Deliver(s, call);
    assert s'.raises == s.raises && s'.tape == s.tape && s'.thread == (if s'.idx == s.idx then s.thread else Wake(s.thread));
    if s'.idx != s.idx {
      if s.tape[s.idx].kind == TT_IRQ_TAKEN {
        AcceptedTakenIsPending(s, call);
        LastIsRaised(s.raises, s.idx);
      } else {
        AcceptedOtherwiseNothingIsPending(s, call);
      }
    } else {
      RefusedKeepsPending(s, call);
      assert s'.aborted || !s.aborted;
      assert forall x: int32 | x != IGNORED_LINE :: {x} - {IGNORED_LINE} == {x};
    }
  }

  /** A taken interrupt that is accepted was pending, so the thread raised it last and waits behind it. */
  lemma AcceptedTakenIsPending(s: State, call: Call)
    requires PrefixInv(s) && ThreadInv(s) && DeliveryInv(s) && Allowed(s, Callback(call))
    requires Deliver(s, call).idx != s.idx && s.tape[s.idx].kind == TT_IRQ_TAKEN
    ensures LastRaised(s.raises, s.idx) && (s.thread.AfterRaise? || s.thread.ParkedAfterRaise?) && s.thread.at == s.idx
    ensures Deliver(s, call).pending == {}
  {
    hide RaisesInv, RaisedBelow;
    LineFitsRecord(call.line);
    assert TapeLine(s.tape, call.line);
  }

  lemma AcceptedOtherwiseNothingIsPending(s: State, call: Call)
    requires PrefixInv(s) && ThreadInv(s) && DeliveryInv(s) && Allowed(s, Callback(call))
    requires Deliver(s, call).idx != s.idx && s.tape[s.idx].kind != TT_IRQ_TAKEN
    ensures s.pending == {} && Deliver(s, call).pending == {}
    ensures s.thread.AtHead? || s.thread.ParkedAtHead? || s.thread.Finished? ||
            ((s.thread.AfterRaise? || s.thread.ParkedAfterRaise?) && s.thread.at < s.idx)
  {
    hide RaisedBelow, AsInt, AsU64;
    if s.thread.AfterRaise? || s.thread.ParkedAfterRaise? {
      assert GoodRaise(s.tape, s.idx, s.executed, s.raises[|s.raises| - 1]);
    }
  }

  lemma RefusedKeepsPending(s: State, call: Call)
    requires PrefixInv(s) && ThreadInv(s) && DeliveryInv(s) && Allowed(s, Callback(call))
    requires Deliver(s, call).idx == s.idx
    ensures Deliver(s, call).pending <= s.pending
    ensures var pending := Deliver(s, call).pending;
            pending == s.pending || pending == s.pending - {IGNORED_LINE} || Deliver(s, call).aborted
  {
    hide RaisesInv, RaisedBelow, AsInt, AsU64, ThreadInv, DeliveryInv;
    if !call.Taken? {
      assert Deliver(s, call).pending == s.pending;
    }
  }

  lemma TurnKeepsDeliveryInv(s: State)
    requires PrefixInv(s) && ThreadInv(s) && DeliveryInv(s)
    ensures DeliveryInv(TakeTurn(s))
  {
    hide RaisesInv, RaisedBelow, AsInt, AsU64, GoodRaise;
    if s.thread.Raising? {
      RaiseKeepsDeliveryInv(s);
    } else {
      var s' := TakeTurn(s);
      assert s'.raises == s.raises && s'.pending == s.pending && s'.idx == s.idx && s'.tape == s.tape;
    }
  }

  lemma RaiseKeepsDeliveryInv(s: State)
    requires PrefixInv(s) && ThreadInv(s) && DeliveryInv(s) && s.thread.Raising?
    ensures DeliveryInv(TakeTurn(s))
  {
    hide RaisesInv, RaisedBelow, AsInt, AsU64, GoodRaise;
    var s' := TakeTurn(s);
    assert s'.raises == s.raises + [s'.raises[|s.raises|]];
    forall k | 0 <= k < s.idx && s.tape[k].kind == TT_IRQ_TAKEN
      ensures IsRaised(s'.raises, k)
    {
      var i :| 0 <= i < |s.raises| && s.raises[i].index == k;
      assert s'.raises[i].index == k;
    }
  }

  /**
   * When QEMU delivers tape lines only after they were raised, every raise hits the current head and
   * the consumed IRQ_TAKEN records are all raised ones.
   */
  lemma {:induction false} DisciplinedRunRaisesTheHead(tape: seq<Record>, evs: seq<Event>)
    requires Disciplined(Init(tape), evs)
    ensures DeliveryInv(Run(Init(tape), evs))
  {
    if evs != [] {
      var before := evs[..|evs| - 1];
      DisciplinedRunRaisesTheHead(tape, before);
      RunKeepsPrefixInv(tape, before);
      RunKeepsThreadInv(tape, before);
      var s := Run(Init(tape), before);
      match evs[|evs| - 1]
      case Callback(call) => DeliverKeepsDeliveryInv(s, call);
      case ThreadTurn => TurnKeepsDeliveryInv(s);
      case _ =>
    }
  }

  /** Without that discipline a raise can come after its record was consumed. */
  lemma UndisciplinedRaiseIsStale()
    ensures var tape := [Record(0, 0, 20, 0, 0, TT_IRQ_TAKEN)];
            var s := Run(Init(tape), [ThreadTurn, ThreadTurn, ThreadTurn, Callback(Taken(20)), ThreadTurn]);
            s.raises == [Raised(0, 20, 0, 1)] && !s.aborted
  {
    var tape := [Record(0, 0, 20, 0, 0, TT_IRQ_TAKEN)];
    StaleSchedule(tape, 20);
  }

  lemma StaleSchedule(tape: seq<Record>, line: int32)
    requires line == 20 && tape == [Record(0, 0, line, 0, 0, TT_IRQ_TAKEN)]
    ensures var s := Run(Init(tape), [ThreadTurn, ThreadTurn, ThreadTurn, Callback(Taken(line)), ThreadTurn]);
            s.raises == [Raised(0, line, 0, 1)] && !s.aborted
  {
    hide Run, Disciplined, Allowed, Step;
    var s0 := Init(tape);
    var e3 := ReachRaising(tape);
    var e4 := e3 + [Callback(Taken(line))];
    AppendEvent(s0, e3, Callback(Taken(line)));
    ConsumeWhileRaising(s0, line);
    AppendEvent(s0, e4, ThreadTurn);
    assert e4 + [ThreadTurn] == [ThreadTurn, ThreadTurn, ThreadTurn, Callback(Taken(line)), ThreadTurn];
  }

  lemma ReachRaising(tape: seq<Record>) returns (evs: seq<Event>)
    requires |tape| == 1 && tape[0].kind == TT_IRQ_TAKEN && tape[0].icount == 0
    ensures evs == [ThreadTurn, ThreadTurn, ThreadTurn] && Run(Init(tape), evs) == Init(tape).(thread := Raising(0, 0))
  {
    hide Disciplined, Allowed, Deliver;
    var s0 := Init(tape);
    assert Run(s0, []) == s0;
    hide Run;
    AppendEvent(s0, [], ThreadTurn);
    assert Run(s0, [] + [ThreadTurn]) == s0.(thread := Gate(0));
    AppendEvent(s0, [] + [ThreadTurn], ThreadTurn);
    assert Run(s0, [] + [ThreadTurn] + [ThreadTurn]) == s0.(thread := Confirm(0, 0));
    evs := [] + [ThreadTurn] + [ThreadTurn] + [ThreadTurn];
    AppendEvent(s0, [] + [ThreadTurn] + [ThreadTurn], ThreadTurn);
  }

  lemma ConsumeWhileRaising(s0: State, line: int32)
    requires line == 20 && s0 == Init([Record(0, 0, line, 0, 0, TT_IRQ_TAKEN)])
    ensures var s := Step(s0.(thread := Raising(0, 0)), Callback(Taken(line)));
            !s.aborted && Step(s, ThreadTurn).raises == [Raised(0, line, 0, 1)] && !Step(s, ThreadTurn).aborted
  {
    var s := Deliver(s0.(thread := Raising(0, 0)), Taken(line));
    assert s.idx == 1 && s.thread == Raising(0, 0);
    assert AsInt(line) == line;
  }

  // ----- which tapes can be replayed to the end -----

  /** Some callback that is not ignored accepts the record. */
  ghost predicate Consumable(e: Record) {
    exists call :: !Ignored(call) && Accepts(DEFAULT_STRICTNESS, e, call)
  }

  lemma ConsumableIff(e: Record)
    ensures Consumable(e) <==>
            e.kind == TT_R || e.kind == TT_W ||
            ((e.kind == TT_IRQ_TAKEN || e.kind == TT_IRQ_SERVED) && e.addr == AsU64(AsInt(e.addr)) && AsInt(e.addr) != IGNORED_LINE)
  {
    if Consumable(e) {
      var call :| !Ignored(call) && Accepts(DEFAULT_STRICTNESS, e, call);
      if call.Taken? || call.Served? {
        LineFitsRecord(call.line);
      }
    }
    assert e.kind == TT_R ==> Accepts(DEFAULT_STRICTNESS, e, Read(e.addr, e.size, 0));
    assert e.kind == TT_W ==> Accepts(DEFAULT_STRICTNESS, e, Write(e.addr, e.value, e.size, 0));
    assert e.kind == TT_IRQ_TAKEN && e.addr == AsU64(AsInt(e.addr)) ==> Accepts(DEFAULT_STRICTNESS, e, Taken(AsInt(e.addr)));
    assert e.kind == TT_IRQ_SERVED && e.addr == AsU64(AsInt(e.addr)) ==> Accepts(DEFAULT_STRICTNESS, e, Served(AsInt(e.addr)));
  }

  /** A disciplined run from a fresh start that has not aborted and has consumed i records. */
  ghost predicate Reaches(tape: seq<Record>, evs: seq<Event>, i: nat) {
    Disciplined(Init(tape), evs) && Run(Init(tape), evs).idx == i && !Run(Init(tape), evs).aborted
  }

  /** Everything known about the end of such a run. */
  lemma ReachedFacts(tape: seq<Record>, evs: seq<Event>, i: nat)
    requires Reaches(tape, evs, i)
    ensures var s := Run(Init(tape), evs);
            s.tape == tape && s.strict == DEFAULT_STRICTNESS && PrefixInv(s) && ThreadInv(s) && DeliveryInv(s)
  {
    RunKeepsPrefixInv(tape, evs);
    RunKeepsThreadInv(tape, evs);
    DisciplinedRunRaisesTheHead(tape, evs);
  }

  lemma AppendEvent(s: State, evs: seq<Event>, ev: Event)
    requires IndexOk(s)
    ensures Run(s, evs + [ev]) == Step(Run(s, evs), ev)
    ensures Disciplined(s, evs) && Allowed(Run(s, evs), ev) ==> Disciplined(s, evs + [ev])
  {
    assert (evs + [ev])[..|evs|] == evs;
  }

  lemma RetireReaches(tape: seq<Record>, evs: seq<Event>, i: nat, n: word)
    requires Reaches(tape, evs, i)
    ensures Reaches(tape, evs + [Retire(n)], i)
    ensures Run(Init(tape), evs + [Retire(n)]) == Run(Init(tape), evs).(executed := Run(Init(tape), evs).executed + n)
  {
    AppendEvent(Init(tape), evs, Retire(n));
  }

  lemma TurnReaches(tape: seq<Record>, evs: seq<Event>, i: nat)
    requires Reaches(tape, evs, i)
    ensures Reaches(tape, evs + [ThreadTurn], i)
    ensures Run(Init(tape), evs + [ThreadTurn]) == TakeTurn(Run(Init(tape), evs))
  {
    AppendEvent(Init(tape), evs, ThreadTurn);
  }

  lemma CountGoesUp(executed: nat, n: nat)
    requires executed % U64 + n < U64
    ensures (executed + n) % U64 == executed % U64 + n
  {
  }

  /** Retiring instructions brings the counter up to any 64-bit value and does nothing else. */
  lemma {:induction false} CounterReaches(tape: seq<Record>, evs: seq<Event>, i: nat, target: nat)
    returns (more: seq<Event>)
    requires Reaches(tape, evs, i) && target < U64
    ensures Reaches(tape, more, i) && target <= Icount(Run(Init(tape), more))
    ensures Run(Init(tape), more).raises == Run(Init(tape), evs).raises
    decreases target - Icount(Run(Init(tape), evs))
  {
    hide Reaches, Run;
    var now := Icount(Run(Init(tape), evs));
    if target <= now {
      more := evs;
    } else {
      var n: word := if target - now < U32 then target - now else U32 - 1;
      RetireReaches(tape, evs, i, n);
      CountGoesUp(Run(Init(tape), evs).executed, n);
      more := CounterReaches(tape, evs + [Retire(n)], i, target);
    }
  }

  lemma {:induction false} TurnsReach(tape: seq<Record>, evs: seq<Event>, i: nat, n: nat)
    returns (more: seq<Event>)
    requires Reaches(tape, evs, i)
    ensures Reaches(tape, more, i) && Run(Init(tape), more) == Turns(Run(Init(tape), evs), n)
    decreases n
  {
    hide Reaches, Run, TakeTurn;
    if n == 0 {
      more := evs;
    } else {
      TurnReaches(tape, evs, i);
      more := TurnsReach(tape, evs + [ThreadTurn], i, n - 1);
    }
  }

  /** The thread gets the head interrupt raised and pending. */
  lemma HeadBecomesPending(tape: seq<Record>, evs: seq<Event>, i: nat)
    returns (more: seq<Event>)
    requires Reaches(tape, evs, i) && i < |tape| && tape[i].kind == TT_IRQ_TAKEN && tape[i].icount < U64
    requires AsInt(tape[i].addr) != IGNORED_LINE
    ensures Reaches(tape, more, i) && AsInt(tape[i].addr) in Run(Init(tape), more).pending
  {
    var counted := CounterReaches(tape, evs, i, tape[i].icount);
    var s := Run(Init(tape), counted);
    ReachedFacts(tape, counted, i);
    var n := 0;
    if !IsRaised(s.raises, i) {
      WaitingHeadGetsRaised(s);
      n :| 0 < n <= Distance(s) <= 6 && IsRaised(Turns(s, n).raises, i);
    }
    more := TurnsReach(tape, counted, i, n);
    ReachedFacts(tape, more, i);
    RaisedHeadIsPending(Run(Init(tape), more));
  }

  lemma RaisedHeadIsPending(s: State)
    requires PrefixInv(s) && ThreadInv(s) && DeliveryInv(s) && !s.aborted
    requires s.idx < |s.tape| && IsRaised(s.raises, s.idx) && AsInt(s.tape[s.idx].addr) != IGNORED_LINE
    ensures AsInt(s.tape[s.idx].addr) in s.pending
  {
    var i :| 0 <= i < |s.raises| && s.raises[i].index == s.idx;
    assert s.thread.AfterRaise? || s.thread.ParkedAfterRaise?;
    assert s.raises[i].index <= s.raises[|s.raises| - 1].index;
    assert GoodRaise(s.tape, s.idx, s.executed, s.raises[|s.raises| - 1]);
  }

  lemma CallbackReaches(tape: seq<Record>, evs: seq<Event>, i: nat, call: Call)
    requires Reaches(tape, evs, i) && i < |tape|
    requires !Ignored(call) && Accepts(DEFAULT_STRICTNESS, tape[i], call)
    requires call.Taken? ==> call.line in Run(Init(tape), evs).pending
    ensures Reaches(tape, evs + [Callback(call)], i + 1)
    ensures Run(Init(tape), evs + [Callback(call)]).raises == Run(Init(tape), evs).raises
  {
    RunKeepsPrefixInv(tape, evs);
    AppendEvent(Init(tape), evs, Callback(call));
  }

  lemma {:induction false} ConsumablePrefixIsReached(tape: seq<Record>, i: nat) returns (evs: seq<Event>)
    requires i <= |tape| && (forall k | 0 <= k < i :: Consumable(tape[k]) && tape[k].icount < U64)
    ensures Reaches(tape, evs, i) && !IsRaised(Run(Init(tape), evs).raises, i)
  {
    if i == 0 {
      evs := [];
    } else {
      evs := ConsumablePrefixIsReached(tape, i - 1);
      var e := tape[i - 1];
      var call :| !Ignored(call) && Accepts(DEFAULT_STRICTNESS, e, call);
      if e.kind == TT_IRQ_TAKEN {
        LineFitsRecord(call.line);
        evs := HeadBecomesPending(tape, evs, i - 1);
      }
      CallbackReaches(tape, evs, i - 1, call);
      ReachedFacts(tape, evs, i - 1);
      NothingRaisedPastHead(Run(Init(tape), evs), i);
      evs := evs + [Callback(call)];
    }
  }

  /**
   * A tape can be replayed to its end, without divergence and with every interrupt raised first,
   * exactly when each of its records is one that some callback accepts.
   */
  lemma ReplayableIffConsumable(tape: seq<Record>)
    requires forall e <- tape :: Fits(e)
    ensures (exists evs :: Reaches(tape, evs, |tape|)) <==> (forall e <- tape :: Consumable(e))
  {
    if evs :| Reaches(tape, evs, |tape|) {
      RunKeepsPrefixInv(tape, evs);
      forall e | e in tape
        ensures Consumable(e)
      {
        var i :| 0 <= i < |tape| && tape[i] == e;
        assert Accepts(DEFAULT_STRICTNESS, e, Run(Init(tape), evs).log[i].call);
      }
    }
    if forall e <- tape :: Consumable(e) {
      assert forall k | 0 <= k < |tape| :: tape[k] in tape;
      var evs := ConsumablePrefixIsReached(tape, |tape|);
    }
  }
}
