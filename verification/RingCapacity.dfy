// How many words the loggers may keep in flight (core/core.c:875-910): the ring of TraceRing under any
// limit, counted from either of the tracer's two indices.
module RingCapacity {
  import opened CInts
  import opened Options
  import opened Coverage
  import opened TraceRing

  /** The index that whoever logs counts from: tracer_consumed_index, or the tracer's own. */
  datatype CountFrom = Consumed | Tracer

  function Ahead(s: State, from: CountFrom): int {
    |s.logged| - match from case Consumed => s.acked case Tracer => Passed(s)
  }

  /** A step of the ring in which a word may be written while fewer than `limit` are ahead with it. */
  function StepAt(limit: nat, from: CountFrom, s: State, ev: Event): (s': State)
    requires Shape(s)
    ensures Shape(s')
  {
    if ev.Write? then
      if s.written.Some? || Ahead(s, from) + 1 >= limit then s
      else s.(buffer := s.buffer[s.index / 4 := ev.v], written := Some(ev.v))
    else Step(s, ev)
  }

  function RunAt(limit: nat, from: CountFrom, s: State, evs: seq<Event>): (s': State)
    requires Shape(s)
    ensures Shape(s')
  {
    if evs == [] then s else StepAt(limit, from, RunAt(limit, from, s, evs[..|evs| - 1]), evs[|evs| - 1])
  }

  /** The tracer saw a prefix of what was logged, and every finished wait had waited for all before it. */
  ghost predicate Honest(s: State) {
    s.observed <= s.logged && forall i | 0 <= i < |s.drains| :: GoodDrain(s, s.drains[i])
  }

  /** The largest limit: one less counted from the tracer's index, which is ahead of the other by the word
      being acknowledged. */
  function MaxLimit(from: CountFrom): nat {
    match from case Consumed => WORDS case Tracer => WORDS - 1
  }

  // ----- within the limit -----

  lemma LimitedStepIsStep(limit: nat, from: CountFrom, s: State, ev: Event)
    requires Shape(s) && Inv(s) && limit <= MaxLimit(from)
    ensures StepAt(limit, from, s, ev) == s || StepAt(limit, from, s, ev) == Step(s, ev)
  {
    hide Stored, GoodDrain, Cover, TakeTurn;
  }

  lemma {:induction false} LimitedRunIsHonest(limit: nat, from: CountFrom, buffer: seq<word>, start: Cov, evs: seq<Event>)
    requires |buffer| == WORDS && |start.afl.cvg| == MAP_SIZE && limit <= MaxLimit(from)
    ensures var s := RunAt(limit, from, Init(buffer, start), evs); Inv(s) && Covered(s) && Honest(s)
  {
    hide Step, StepAt, Covered, Stored, GoodDrain;
    if evs == [] {
      InitInv(buffer, start);
    } else {
      LimitedRunIsHonest(limit, from, buffer, start, evs[..|evs| - 1]);
      hide Inv;
      var s := RunAt(limit, from, Init(buffer, start), evs[..|evs| - 1]);
      LimitedStepIsStep(limit, from, s, evs[|evs| - 1]);
      StepKeepsInv(s, evs[|evs| - 1]);
      InvIsHonest(RunAt(limit, from, Init(buffer, start), evs));
    }
  }

  lemma InvIsHonest(s: State)
    requires Inv(s)
    ensures Honest(s)
  {
  }

  // ----- beyond the limit -----

  lemma Next(limit: nat, from: CountFrom, s: State, evs: seq<Event>, ev: Event)
    requires Shape(s)
    ensures RunAt(limit, from, s, evs + [ev]) == StepAt(limit, from, RunAt(limit, from, s, evs), ev)
  {
    assert (evs + [ev])[..|evs|] == evs;
  }

  /** A word logged where the limit allows it. */
  lemma LogOne(limit: nat, from: CountFrom, s0: State, evs: seq<Event>, v: word) returns (evs': seq<Event>)
    requires Shape(s0)
    requires var s := RunAt(limit, from, s0, evs);
             s.written.None? && Ahead(s, from) + 1 < limit && s.index == IndexOf(|s.logged|)
    ensures var s, s' := RunAt(limit, from, s0, evs), RunAt(limit, from, s0, evs');
            s' == s.(buffer := s'.buffer, logged := s.logged + [v], index := IndexOf(|s.logged| + 1))
  {
    var s := RunAt(limit, from, s0, evs);
    SlotOfIndex(|s.logged|);
    Next(limit, from, s0, evs, Write(v));
    Next(limit, from, s0, evs + [Write(v)], Publish);
    evs' := evs + [Write(v)] + [Publish];
  }

  /** Words logged one after the other while the tracer stands still. */
  lemma {:induction false} LogMany(limit: nat, from: CountFrom, s0: State, evs: seq<Event>, n: nat)
    returns (evs': seq<Event>)
    requires Shape(s0)
    requires var s := RunAt(limit, from, s0, evs);
             s.written.None? && Ahead(s, from) + n < limit && s.index == IndexOf(|s.logged|)
    ensures var s, s' := RunAt(limit, from, s0, evs), RunAt(limit, from, s0, evs');
            && |s'.logged| == |s.logged| + n && s'.index == IndexOf(|s'.logged|)
            && s' == s.(buffer := s'.buffer, logged := s'.logged, index := s'.index)
    decreases n
  {
    hide StepAt;
    if n == 0 {
      evs' := evs;
    } else {
      evs' := LogMany(limit, from, s0, evs, n - 1);
      evs' := LogOne(limit, from, s0, evs', 0);
    }
  }

  /** A wait that begins with exactly one ring of words unacknowledged ends at once, unwarranted. */
  lemma WaitLies(limit: nat, from: CountFrom, s0: State, evs: seq<Event>) returns (evs': seq<Event>)
    requires Shape(s0)
    requires var s := RunAt(limit, from, s0, evs);
             && s.index == IndexOf(|s.logged|) && s.consumed == IndexOf(s.acked) && |s.logged| == s.acked + WORDS
             && s.wait.None? && |Values(s.trace)| < |s.logged|
    ensures !Honest(RunAt(limit, from, s0, evs'))
  {
    hide Values, TakeTurn, Cover;
    var s := RunAt(limit, from, s0, evs);
    WaitIsHonestIffBelowCapacity(|s.logged|, s.acked);
    Next(limit, from, s0, evs, DrainBegin);
    Next(limit, from, s0, evs + [DrainBegin], DrainPoll);
    evs' := evs + [DrainBegin] + [DrainPoll];
    var d := Drained(|s.logged|, s.trace);
    assert RunAt(limit, from, s0, evs').drains == s.drains + [d];
    assert !GoodDrain(RunAt(limit, from, s0, evs'), d);
    assert (s.drains + [d])[|s.drains|] == d;
  }

  /** Counted from tracer_consumed_index: a full ring is logged before the tracer does anything. */
  lemma FullRingLies(limit: nat, buffer: seq<word>, start: Cov) returns (evs: seq<Event>)
    requires |buffer| == WORDS && |start.afl.cvg| == MAP_SIZE && limit > WORDS
    ensures !Honest(RunAt(limit, Consumed, Init(buffer, start), evs))
  {
    hide StepAt;
    var s0 := Init(buffer, start);
    assert RunAt(limit, Consumed, s0, []) == s0;
    evs := LogMany(limit, Consumed, s0, [], WORDS);
    hide RunAt;
    assert Values([]) == [];
    evs := WaitLies(limit, Consumed, s0, evs);
  }

  /** One word is folded and its tracer index advanced, but not acknowledged. */
  lemma OneUnacknowledged(limit: nat, s0: State) returns (evs: seq<Event>)
    requires Shape(s0) && s0.logged == [] && s0.written.None? && s0.index == s0.tracer == 0 && s0.acked == 0
    requires s0.pc.Polling? && s0.observed == [] && s0.trace == [] && s0.wait.None? && limit >= 2
    ensures var s := RunAt(limit, Tracer, s0, evs);
            && |s.logged| == |s.observed| == 1 && s.index == IndexOf(1) && s.pc.Advanced? && s.acked == s0.acked
            && s.consumed == s0.consumed && s.written.None? && s.wait.None? && |Values(s.trace)| == 1
  {
    hide Observe, RunAt;
    assert RunAt(limit, Tracer, s0, []) == s0 by { RunNothing(limit, s0); }
    evs := LogOne(limit, Tracer, s0, [], 0);
    var s := RunAt(limit, Tracer, s0, evs);
    Next(limit, Tracer, s0, evs, TracerTurn(0));
    var loaded := TakeTurn(s, 0);
    Next(limit, Tracer, s0, evs + [TracerTurn(0)], TracerTurn(0));
    var folded := TakeTurn(loaded, 0);
    Next(limit, Tracer, s0, evs + [TracerTurn(0)] + [TracerTurn(0)], TracerTurn(0));
    evs := evs + [TracerTurn(0)] + [TracerTurn(0)] + [TracerTurn(0)];
    assert folded.trace == [] + [Logged(loaded.pc.value, 0)];
    OneValue(loaded.pc.value);
  }

  lemma RunNothing(limit: nat, s0: State)
    requires Shape(s0)
    ensures RunAt(limit, Tracer, s0, []) == s0
  {
  }

  lemma OneValue(v: word)
    ensures Values([] + [Logged(v, 0)]) == [v]
  {
    assert ([] + [Logged(v, 0)])[..0] == [];
  }

  /** Counted from the tracer's index one word fewer is already too many. */
  lemma OneLessLies(limit: nat, buffer: seq<word>, start: Cov) returns (evs: seq<Event>)
    requires |buffer| == WORDS && |start.afl.cvg| == MAP_SIZE && limit > WORDS - 1
    ensures !Honest(RunAt(limit, Tracer, Init(buffer, start), evs))
  {
    hide RunAt, StepAt, Values;
    var s0 := Init(buffer, start);
    evs := OneUnacknowledged(limit, s0);
    evs := LogMany(limit, Tracer, s0, evs, WORDS - 1);
    evs := WaitLies(limit, Tracer, s0, evs);
  }

  /** In every interleaving the tracer's view and every drain wait are right, if and only if whoever logs
      keeps fewer than 16384 words ahead of tracer_consumed_index; counted from the tracer's own index,
      fewer than 16383. */
  lemma RunsAreHonestIffWithinLimit(limit: nat, from: CountFrom, buffer: seq<word>, start: Cov)
    requires |buffer| == WORDS && |start.afl.cvg| == MAP_SIZE
    ensures (forall evs :: Honest(RunAt(limit, from, Init(buffer, start), evs))) <==> limit <= MaxLimit(from)
  {
    hide Honest, RunAt;
    if limit <= MaxLimit(from) {
      forall evs ensures Honest(RunAt(limit, from, Init(buffer, start), evs)) {
        LimitedRunIsHonest(limit, from, buffer, start, evs);
      }
    } else {
      var evs;
      if from.Consumed? {
        evs := FullRingLies(limit, buffer, start);
      } else {
        evs := OneLessLies(limit, buffer, start);
      }
      assert !Honest(RunAt(limit, from, Init(buffer, start), evs));
    }
  }
}
