// The ring between the inline program-counter logger, the interrupt hooks and the tracer thread
// (core/core.c:875-910, virtuals/fuzzer/fuzz.c:158-172): 16384 words under 16-bit byte indices.
// One step is one access to a shared variable; any interleaving of the threads is one event list.
module TraceRing {
  import opened CInts
  import opened Options
  import opened Coverage

  const WORDS: nat := 16384
  const INDEX_MOD: nat := 65536

  type u16 = i: int | 0 <= i < 65536

  /** Where the tracer is in its loop body. */
  datatype TracerPc = Polling | Loaded(value: word) | Folded | Advanced

  /** A drain wait: the 16-bit index it waits for, and how many words had been logged when it read it. */
  datatype Wait = Wait(target: u16, goal: nat)

  datatype State = State(
    buffer: seq<word>,
    index: u16,               // log_buf.index
    tracer: u16,              // tracer_index
    consumed: u16,            // tracer_consumed_index
    pc: TracerPc,
    written: Option<word>,    // stored in the slot at index, the index not advanced yet
    wait: Option<Wait>,
    logged: seq<word>,        // every word ever logged
    observed: seq<word>,      // every word folded into coverage
    acked: nat,               // how often tracer_consumed_index was stored
    start: Cov,               // coverage before the first word
    trace: seq<Entry>,        // what was done to coverage: the observed words with their clock, and the resets
    cov: Cov,                 // coverage now
    drains: seq<Drained>)

  /** A finished wait: the words logged when it began, and what had been done to coverage when it ended. */
  datatype Drained = Drained(goal: nat, trace: seq<Entry>)

  datatype Event = Write(v: word) | Publish | TracerTurn(now: word) | DrainBegin | DrainPoll | SyncReset

  predicate Shape(s: State) {
    |s.buffer| == WORDS && |s.cov.afl.cvg| == MAP_SIZE
  }

  function Init(buffer: seq<word>, start: Cov): State {
    State(buffer, 0, 0, 0, Polling, None, None, [], [], 0, start, [], start, [])
  }

  /** The words among what was done to coverage. */
  function Values(trace: seq<Entry>): seq<word> {
    if trace == [] then [] else
      var e := trace[|trace| - 1];
      if e.Logged? then Values(trace[..|trace| - 1]) + [e.value] else Values(trace[..|trace| - 1])
  }

  /** Words logged and not yet acknowledged through tracer_consumed_index. */
  function InFlight(s: State): int {
    |s.logged| - s.acked
  }

  /** The contract of whoever logs: one more word keeps fewer than 16384 in flight. */
  predicate MayWrite(s: State) {
    InFlight(s) + 1 < WORDS
  }

  /** Something is done to coverage. */
  function Cover(s: State, e: Entry): State
    requires Shape(s)
  {
    s.(trace := s.trace + [e], cov := Observe(s.cov, e))
  }

  function TakeTurn(s: State, now: word): (s': State)
    requires Shape(s)
    ensures Shape(s')
  {
    match s.pc
    case Polling => if (s.index - s.tracer) % INDEX_MOD == 0 then s else s.(pc := Loaded(s.buffer[s.tracer / 4]))
    case Loaded(value) => Cover(s, Logged(value, now)).(pc := Folded, observed := s.observed + [value])
    case Folded => s.(pc := Advanced, tracer := (s.tracer + 4) % INDEX_MOD)
    case Advanced => s.(pc := Polling, consumed := s.tracer, acked := s.acked + 1)
  }

  function Step(s: State, ev: Event): (s': State)
    requires Shape(s)
    ensures Shape(s')
  {
    match ev
    case Write(v) =>
      if s.written.Some? || !MayWrite(s) then s else s.(buffer := s.buffer[s.index / 4 := v], written := Some(v))
    case Publish =>
      if s.written.None? then s
      else s.(index := (s.index + 4) % INDEX_MOD, logged := s.logged + [s.written.value], written := None)
    case TracerTurn(now) => TakeTurn(s, now)
    case SyncReset => Cover(s, TraceReset)
    case DrainBegin => if s.wait.Some? then s else s.(wait := Some(Wait(s.index, |s.logged|)))
    case DrainPoll =>
      if s.wait.Some? && s.consumed == s.wait.value.target
      then s.(wait := None, drains := s.drains + [Drained(s.wait.value.goal, s.trace)])
      else s
  }

  function Run(s: State, evs: seq<Event>): (s': State)
    requires Shape(s)
    ensures Shape(s')
  {
    if evs == [] then s else Step(Run(s, evs[..|evs| - 1]), evs[|evs| - 1])
  }

  /** The 16-bit byte index of the n-th word. */
  function IndexOf(n: nat): u16 {
    4 * n % INDEX_MOD
  }

  lemma SlotOfIndex(n: nat)
    ensures IndexOf(n) / 4 == n % WORDS
    ensures (IndexOf(n) + 4) % INDEX_MOD == IndexOf(n + 1)
  {
    var turns := n / WORDS;
    assert 4 * n == INDEX_MOD * turns + 4 * (n % WORDS);
    assert IndexOf(n) == 4 * (n % WORDS);
    assert 4 * (n + 1) == 4 * n + 4;
  }

  lemma EqualIndices(a: nat, b: nat)
    requires a <= b
    ensures IndexOf(a) == IndexOf(b) <==> (b - a) % WORDS == 0
    ensures (IndexOf(b) - IndexOf(a)) % INDEX_MOD == 0 <==> IndexOf(a) == IndexOf(b)
  {
  }

  lemma DistinctSlots(a: nat, b: nat)
    requires a < b < a + WORDS
    ensures a % WORDS != b % WORDS
  {
  }

  /** How many words the tracer has advanced over. */
  function Passed(s: State): int {
    if s.pc.Folded? then |s.observed| - 1 else |s.observed|
  }

  /** The words in flight are in their slots. */
  ghost predicate Stored(buffer: seq<word>, acked: nat, logged: seq<word>, written: Option<word>) {
    && |buffer| == WORDS
    && (forall j | acked <= j < |logged| :: buffer[j % WORDS] == logged[j])
    && (written.Some? ==> buffer[|logged| % WORDS] == written.value)
  }

  ghost predicate Inv(s: State) {
    && Stored(s.buffer, s.acked, s.logged, s.written)
    && s.observed <= s.logged
    && s.acked == (if s.pc.Folded? || s.pc.Advanced? then |s.observed| - 1 else |s.observed|)
    && Passed(s) >= 0
    && s.index == IndexOf(|s.logged|) && s.tracer == IndexOf(Passed(s)) && s.consumed == IndexOf(s.acked)
    && InFlight(s) + (if s.written.Some? then 1 else 0) < WORDS
    && (s.pc.Loaded? ==> |s.observed| < |s.logged| && s.pc.value == s.logged[|s.observed|])
    && (s.wait.Some? ==>
          var w := s.wait.value;
          w.target == IndexOf(w.goal) && w.goal <= |s.logged| && w.goal < s.acked + WORDS)
    && (forall i | 0 <= i < |s.drains| :: GoodDrain(s, s.drains[i]))
  }

  /** Every word logged before the wait had been folded when it ended. */
  ghost predicate GoodDrain(s: State, d: Drained) {
    d.goal <= |s.logged| && s.logged[..d.goal] <= Values(d.trace) && d.trace <= s.trace
  }

  /** Coverage is the fold of what was done to it, and that is the observed words and the resets. */
  ghost predicate Covered(s: State) {
    |s.start.afl.cvg| == |s.cov.afl.cvg| == MAP_SIZE && s.cov == Fold(s.start, s.trace) && Values(s.trace) == s.observed
  }

  lemma CoverKeepsCovered(s: State, e: Entry)
    requires Shape(s) && Covered(s)
    ensures Cover(s, e).cov == Fold(s.start, s.trace + [e])
    ensures Values(s.trace + [e]) == if e.Logged? then s.observed + [e.value] else s.observed
  {
    assert (s.trace + [e])[..|s.trace + [e]| - 1] == s.trace;
  }

  lemma WriteKeepsInv(s: State, v: word)
    requires Shape(s) && Inv(s)
    ensures Inv(Step(s, Write(v)))
  {
    if s.written.None? && MayWrite(s) {
      SlotOfIndex(|s.logged|);
      var s' := Step(s, Write(v));
      forall j | s.acked <= j < |s.logged|
        ensures s'.buffer[j % WORDS] == s'.logged[j]
      {
        DistinctSlots(j, |s.logged|);
      }
      DrainsStayGood(s, s');
    }
  }

  /** Logging more and doing more to coverage leaves finished waits good. */
  lemma DrainsStayGood(s: State, s': State)
    requires forall i | 0 <= i < |s.drains| :: GoodDrain(s, s.drains[i])
    requires s.logged <= s'.logged && s.trace <= s'.trace
    ensures forall i | 0 <= i < |s.drains| :: GoodDrain(s', s.drains[i])
  {
    forall i | 0 <= i < |s.drains|
      ensures GoodDrain(s', s.drains[i])
    {
      assert GoodDrain(s, s.drains[i]);
      assert s'.logged[..s.drains[i].goal] == s.logged[..s.drains[i].goal];
    }
  }

  lemma PublishKeepsInv(s: State)
    requires Shape(s) && Inv(s)
    ensures Inv(Step(s, Publish))
  {
    hide GoodDrain, IndexOf, Observe, Cover, TakeTurn;
    if s.written.Some? {
      SlotOfIndex(|s.logged|);
      var s' := Step(s, Publish);
      assert s'.logged[..|s.logged|] == s.logged;
      assert s.observed <= s'.logged;
      DrainsStayGood(s, s');
    }
  }

  lemma TurnKeepsInv(s: State, now: word)
    requires Shape(s) && Inv(s) && Covered(s)
    ensures Inv(TakeTurn(s, now)) && Covered(TakeTurn(s, now))
  {
    hide Observe, Fold, Values, Stored, GoodDrain, IndexOf;
    DrainsStayGood(s, TakeTurn(s, now));
    match s.pc
    case Polling => PollKeepsInv(s, now);
    case Loaded(value) => FoldKeepsInv(s, now);
    case Folded => SlotOfIndex(Passed(s));
    case Advanced => AckKeepsInv(s, now);
  }

  lemma PollKeepsInv(s: State, now: word)
    requires Shape(s) && Inv(s) && s.pc.Polling?
    ensures Inv(TakeTurn(s, now))
  {
    hide Observe, Fold, Values, GoodDrain, IndexOf;
    var n := |s.observed|;
    DrainsStayGood(s, TakeTurn(s, now));
    EqualIndices(n, |s.logged|);
    SlotOfIndex(n);
    if n < |s.logged| {
      assert s.buffer[n % WORDS] == s.logged[n];
    }
  }

  lemma FoldKeepsInv(s: State, now: word)
    requires Shape(s) && Inv(s) && Covered(s) && s.pc.Loaded?
    ensures Inv(TakeTurn(s, now)) && Covered(TakeTurn(s, now))
  {
    hide Observe, Fold, Values, Stored, GoodDrain, IndexOf;
    DrainsStayGood(s, TakeTurn(s, now));
    CoverKeepsCovered(s, Logged(s.pc.value, now));
    assert TakeTurn(s, now).observed == s.logged[..|s.observed| + 1];
  }

  lemma AckKeepsInv(s: State, now: word)
    requires Shape(s) && Inv(s) && s.pc.Advanced?
    ensures Inv(TakeTurn(s, now))
  {
    hide Observe, Fold, Values, GoodDrain, IndexOf;
    DrainsStayGood(s, TakeTurn(s, now));
  }

  lemma DrainKeepsInv(s: State, ev: Event)
    requires Shape(s) && Inv(s) && Covered(s) && (ev.DrainBegin? || ev.DrainPoll?)
    ensures Inv(Step(s, ev)) && Covered(Step(s, ev))
  {
    hide Values, Fold, Observe, Stored, IndexOf;
    var s' := Step(s, ev);
    DrainsStayGood(s, s');
    if ev.DrainPoll? && s.wait.Some? && s.consumed == s.wait.value.target {
      var goal := s.wait.value.goal;
      MetTargetIsPassed(s.acked, goal);
      assert s.logged[..goal] <= s.observed;
      assert GoodDrain(s', Drained(goal, s.trace));
    }
  }

  /** Within one ring of it, a wait's index is only met when all its words are acknowledged. */
  lemma MetTargetIsPassed(acked: nat, goal: nat)
    requires IndexOf(acked) == IndexOf(goal) && goal < acked + WORDS
    ensures goal <= acked
  {
    hide IndexOf;
    if acked < goal {
      EqualIndices(acked, goal);
    }
  }

  lemma StepKeepsInv(s: State, ev: Event)
    requires Shape(s) && Inv(s) && Covered(s)
    ensures Inv(Step(s, ev)) && Covered(Step(s, ev))
  {
    hide Observe, Fold, Values;
    match ev
    case Write(v) => WriteKeepsInv(s, v);
    case Publish => PublishKeepsInv(s);
    case TracerTurn(now) => TurnKeepsInv(s, now);
    case SyncReset =>
      CoverKeepsCovered(s, TraceReset);
      DrainsStayGood(s, Cover(s, TraceReset));
    case _ => DrainKeepsInv(s, ev);
  }

  lemma InitInv(buffer: seq<word>, start: Cov)
    requires |buffer| == WORDS && |start.afl.cvg| == MAP_SIZE
    ensures Inv(Init(buffer, start)) && Covered(Init(buffer, start))
  {
  }

  /**
   * In every interleaving whose loggers keep fewer than 16384 words in flight, what the tracer has
   * observed is a prefix of what was logged, coverage is the fold of exactly that and the resets,
   * and every finished drain wait ended after all words logged before it began had been folded.
   */
  lemma {:induction false} ObservedIsPrefixOfLogged(buffer: seq<word>, start: Cov, evs: seq<Event>)
    requires |buffer| == WORDS && |start.afl.cvg| == MAP_SIZE
    ensures Inv(Run(Init(buffer, start), evs)) && Covered(Run(Init(buffer, start), evs))
  {
    hide Step, Inv, Covered;
    if evs == [] {
      InitInv(buffer, start);
    } else {
      ObservedIsPrefixOfLogged(buffer, start, evs[..|evs| - 1]);
      StepKeepsInv(Run(Init(buffer, start), evs[..|evs| - 1]), evs[|evs| - 1]);
    }
  }

  /**
   * Why the bound is 16384 and why it counts from tracer_consumed_index: a wait that starts with
   * words unacknowledged returns at once exactly when their number is a multiple of 16384, so
   * within one ring it waits for all of them exactly when there are fewer than 16384.
   */
  lemma WaitIsHonestIffBelowCapacity(logged: nat, acked: nat)
    requires acked <= logged <= acked + WORDS
    ensures IndexOf(acked) == IndexOf(logged) <==> (logged - acked) % WORDS == 0
    ensures (IndexOf(acked) == IndexOf(logged) ==> acked == logged) <==> logged - acked < WORDS
  {
    EqualIndices(acked, logged);
  }

  // ----- the ring as it runs -----

  class Ring {
    const buffer: array<word>
    var index: u16
    var tracerIndex: u16
    var consumedIndex: u16
    var pc: TracerPc
    ghost var model: State

    ghost predicate Valid()
      reads this, buffer
    {
      && Shape(model) && Inv(model) && Covered(model)
      && model.buffer == buffer[..]
      && model.index == index && model.tracer == tracerIndex && model.consumed == consumedIndex && model.pc == pc
    }

    constructor (ghost start: Cov)
      requires |start.afl.cvg| == MAP_SIZE
      ensures Valid() && fresh(buffer) && model == Init(buffer[..], start)
    {
      buffer := new word[WORDS](_ => 0);
      index, tracerIndex, consumedIndex, pc := 0, 0, 0, Polling;
      new;
      model := Init(buffer[..], start);
      InitInv(buffer[..], start);
    }

    /** An interrupt hook: the marker goes into the slot, then the index moves. */
    method LogMarker(marker: word)
      requires Valid() && IsMarker(marker) && MayWrite(model) && model.written.None?
      modifies this, buffer
      ensures Valid() && model == Step(Step(old(model), Write(marker)), Publish)
      ensures model.logged == old(model.logged) + [marker]
    {
      StepKeepsInv(model, Write(marker));
      buffer[index / 4] := marker;
      model := Step(model, Write(marker));
      StepKeepsInv(model, Publish);
      index := (index + 4) % 65536;
      model := Step(model, Publish);
    }

    /** One access of the tracer loop; `observe` tells the caller to fold `value` into coverage. */
    method TracerStep(ghost now: word) returns (observe: bool, value: word)
      requires Valid()
      modifies this
      ensures Valid() && model == Step(old(model), TracerTurn(now))
      ensures observe == old(pc).Loaded?
      ensures observe ==> model.observed == old(model.observed) + [value]
    {
      hide Observe, Fold, Values;
      StepKeepsInv(model, TracerTurn(now));
      observe, value := false, 0;
      match pc {
        case Polling =>
          if (index - tracerIndex) % 65536 != 0 {
            pc := Loaded(buffer[tracerIndex / 4]);
          }
        case Loaded(v) =>
          observe, value := true, v;
          pc := Folded;
        case Folded =>
          tracerIndex := (tracerIndex + 4) % 65536;
          pc := Advanced;
        case Advanced =>
          consumedIndex := tracerIndex;
          pc := Polling;
      }
      model := Step(model, TracerTurn(now));
    }
  }
}
