// What the interrupt thread of the replay gets done under every interleaving, and when a raise comes
// too late (device_models/twintrace/twintrace.c:196-312).
module ReplayProgress {
  import opened CInts
  import opened TapeFormat
  import opened Replay

  /** How many turns of the interrupt thread a schedule holds. */
  function ThreadTurns(evs: seq<Event>): (n: nat)
    ensures n <= |evs|
  {
    if evs == [] then 0 else ThreadTurns(evs[..|evs| - 1]) + if evs[|evs| - 1].ThreadTurn? then 1 else 0
  }

  // ----- a waiting head is raised whatever happens between the turns -----

  lemma {:induction false} RunKeepsInvs(s: State, evs: seq<Event>)
    requires PrefixInv(s) && ThreadInv(s)
    ensures var s' := Run(s, evs); PrefixInv(s') && ThreadInv(s') && s'.tape == s.tape
    ensures s.idx <= Run(s, evs).idx && s.executed <= Run(s, evs).executed
  {
    assert IndexOk(s);
    hide PrefixInv, ThreadInv, Step;
    if evs != [] {
      RunKeepsInvs(s, evs[..|evs| - 1]);
      OneStepKeepsInvs(Run(s, evs[..|evs| - 1]), evs[|evs| - 1]);
    }
  }

  lemma OneStepKeepsInvs(s: State, ev: Event)
    requires PrefixInv(s) && ThreadInv(s)
    ensures PrefixInv(Step(s, ev)) && ThreadInv(Step(s, ev)) && Step(s, ev).tape == s.tape
    ensures s.idx <= Step(s, ev).idx && s.executed <= Step(s, ev).executed
  {
    hide ThreadInv, PrefixInv, Accepts, AsInt, LookAtHead, Answer;
    BothInvs(s);
    StepKeepsThreadInv(s, ev);
    match ev
    case Callback(call) => DeliverKeepsPrefixInv(s, call);
    case _ => OthersKeepPrefixInv(s, ev);
  }

  /** The waiting head was raised, or still waits with the thread at most so many turns away. */
  predicate Closer(s: State, s': State, distance: int) {
    IsRaised(s'.raises, s.idx) || (HeadWaits(s') && Distance(s') <= distance)
  }

  lemma OwnTurnGetsCloser(s: State)
    requires PrefixInv(s) && ThreadInv(s) && HeadWaits(s)
    ensures Closer(s, TakeTurn(s), Distance(s) - 1)
  {
    TurnGetsCloser(s);
    TurnKeepsTheRest(s);
    hide ThreadInv, PrefixInv, Distance, TakeTurn;
    if LastRaised(TakeTurn(s).raises, s.idx) {
      LastIsRaised(TakeTurn(s).raises, s.idx);
    }
  }

  lemma OtherStepGetsNoFurther(s: State, ev: Event)
    requires IndexOk(s) && HeadWaits(s) && !ev.ThreadTurn? && Step(s, ev).idx == s.idx && Step(s, ev).executed < U64
    ensures Closer(s, Step(s, ev), Distance(s))
  {
    hide IsRaised, Accepts, Answer, Ignored;
  }

  /** A step that leaves the head where it is brings the thread no further from raising it, and its own
      turn brings it closer. */
  lemma StepGetsCloser(s: State, ev: Event)
    requires PrefixInv(s) && ThreadInv(s) && HeadWaits(s)
    requires Step(s, ev).idx == s.idx && Step(s, ev).executed < U64
    ensures Closer(s, Step(s, ev), Distance(s) - if ev.ThreadTurn? then 1 else 0)
  {
    hide PrefixInv, ThreadInv, HeadWaits, Distance, Closer, TakeTurn, Deliver;
    BothInvs(s);
    if ev.ThreadTurn? {
      OwnTurnGetsCloser(s);
    } else {
      OtherStepGetsNoFurther(s, ev);
    }
  }

  lemma CloserThenStep(s: State, m: State, ev: Event, distance: int)
    requires PrefixInv(m) && ThreadInv(m) && Closer(s, m, distance) && m.idx == s.idx
    requires Step(m, ev).idx == m.idx && Step(m, ev).executed < U64
    ensures Closer(s, Step(m, ev), distance - if ev.ThreadTurn? then 1 else 0)
  {
    hide PrefixInv, ThreadInv, HeadWaits, Distance, Step, IsRaised;
    BothInvs(m);
    if IsRaised(m.raises, s.idx) {
      RaisedStays(m, ev, s.idx);
    } else {
      StepGetsCloser(m, ev);
    }
  }

  lemma RunUnfolds(s: State, evs: seq<Event>)
    requires IndexOk(s)
    ensures Run(s, evs) == if evs == [] then s else Step(Run(s, evs[..|evs| - 1]), evs[|evs| - 1])
  {
  }

  lemma TurnsGrow(evs: seq<Event>)
    requires evs != []
    ensures ThreadTurns(evs) == ThreadTurns(evs[..|evs| - 1]) + if evs[|evs| - 1].ThreadTurn? then 1 else 0
  {
  }

  lemma NoTurnsSpent(s: State)
    requires HeadWaits(s)
    ensures Closer(s, s, Distance(s)) && ThreadTurns([]) == 0
  {
  }

  lemma {:induction false} TurnsAreSpent(s: State, evs: seq<Event>)
    requires PrefixInv(s) && ThreadInv(s) && HeadWaits(s)
    requires Run(s, evs).idx == s.idx && Run(s, evs).executed < U64
    ensures Closer(s, Run(s, evs), Distance(s) - ThreadTurns(evs))
    decreases |evs|
  {
    hide Run, PrefixInv, ThreadInv, HeadWaits, Distance, Step, Closer, ThreadTurns, IndexOk;
    BothInvs(s);
    RunUnfolds(s, evs);
    if evs == [] {
      NoTurnsSpent(s);
    } else {
      var init, last := evs[..|evs| - 1], evs[|evs| - 1];
      var m := Run(s, init);
      RunKeepsInvs(s, init);
      OneStepKeepsInvs(m, last);
      TurnsAreSpent(s, init);
      TurnsGrow(evs);
      CloserThenStep(s, m, last, Distance(s) - ThreadTurns(init));
    }
  }

  lemma RaisedStays(s: State, ev: Event, k: nat)
    requires IndexOk(s) && IsRaised(s.raises, k)
    ensures IsRaised(Step(s, ev).raises, k)
  {
    var i :| 0 <= i < |s.raises| && s.raises[i].index == k;
    assert |Step(s, ev).raises| >= |s.raises| && Step(s, ev).raises[i] == s.raises[i];
  }

  /** In every reachable state whose head is an interrupt that is due and not raised: once the thread has
      had six turns, whatever else happened between them, the interrupt is raised or the head has moved
      (unless the instruction counter wrapped, which may close the gate again). */
  lemma DueHeadIsRaisedWithinSixTurns(tape: seq<Record>, before: seq<Event>, evs: seq<Event>)
    requires HeadWaits(Run(Init(tape), before)) && ThreadTurns(evs) >= 6
    requires Run(Run(Init(tape), before), evs).executed < U64
    ensures var s, s' := Run(Init(tape), before), Run(Run(Init(tape), before), evs);
            s'.idx > s.idx || IsRaised(s'.raises, s.idx)
  {
    hide Run, PrefixInv, ThreadInv, HeadWaits, IsRaised, Distance;
    var s := Run(Init(tape), before);
    RunKeepsPrefixInv(tape, before);
    RunKeepsThreadInv(tape, before);
    RunKeepsInvs(s, evs);
    if Run(s, evs).idx == s.idx {
      TurnsAreSpent(s, evs);
      AwayWhileWaiting(s);
      if HeadWaits(Run(s, evs)) {
        AwayWhileWaiting(Run(s, evs));
      }
    }
  }

  lemma AwayWhileWaiting(s: State)
    requires ThreadInv(s) && HeadWaits(s)
    ensures 0 < Distance(s) <= 6
  {
  }

  // ----- at the end of the tape the thread exits whatever happens between its turns -----

  lemma EndStepGetsCloser(s: State, ev: Event)
    requires PrefixInv(s) && ThreadInv(s) && s.idx == |s.tape|
    ensures var s' := Step(s, ev);
            s'.idx == |s'.tape| && (s'.thread.Finished? || Distance(s') + (if ev.ThreadTurn? then 1 else 0) <= Distance(s))
  {
    if ev.ThreadTurn? {
      if !s.thread.Finished? {
        TurnGetsCloser(s);
        TurnKeepsTheRest(s);
        if LastRaised(TakeTurn(s).raises, s.idx) {
          LastIsRaised(TakeTurn(s).raises, s.idx);
        }
        NothingRaisedPastEnd(TakeTurn(s));
      }
    } else {
      hide ThreadInv;
    }
  }

  lemma {:induction false} EndTurnsAreSpent(s: State, evs: seq<Event>)
    requires PrefixInv(s) && ThreadInv(s) && s.idx == |s.tape|
    ensures var s' := Run(s, evs);
            s'.idx == |s'.tape| && (s'.thread.Finished? || Distance(s') + ThreadTurns(evs) <= Distance(s))
  {
    assert IndexOk(s);
    hide PrefixInv, ThreadInv, Step;
    if evs != [] {
      var init, last := evs[..|evs| - 1], evs[|evs| - 1];
      RunKeepsInvs(s, init);
      EndTurnsAreSpent(s, init);
      EndStepGetsCloser(Run(s, init), last);
      FinishedStays(Run(s, init), last);
    }
  }

  lemma FinishedStays(s: State, ev: Event)
    requires IndexOk(s)
    ensures s.thread.Finished? ==> Step(s, ev).thread.Finished?
  {
  }

  /** After the last record is consumed the thread has exited once it had six turns. */
  lemma ThreadExitsWithinSixTurns(tape: seq<Record>, before: seq<Event>, evs: seq<Event>)
    requires Run(Init(tape), before).idx == |tape| && ThreadTurns(evs) >= 6
    ensures Run(Run(Init(tape), before), evs).thread.Finished?
  {
    hide Run, PrefixInv, ThreadInv;
    var s := Run(Init(tape), before);
    RunKeepsPrefixInv(tape, before);
    RunKeepsThreadInv(tape, before);
    EndTurnsAreSpent(s, evs);
  }

  // ----- when a raise comes too late -----

  /** An interrupt was raised after its record had been consumed. */
  predicate HasStale(s: State) {
    exists k | 0 <= k < |s.raises| :: s.raises[k].head != s.raises[k].index
  }

  /** An interrupt lies in the part of the tape that callbacks can consume. */
  ghost predicate ConsumableInterrupt(tape: seq<Record>, i: nat) {
    i < |tape| && tape[i].kind == TT_IRQ_TAKEN && forall k | 0 <= k <= i :: Consumable(tape[k])
  }

  lemma StaleRecordIsConsumable(tape: seq<Record>, evs: seq<Event>) returns (i: nat)
    requires HasStale(Run(Init(tape), evs))
    ensures ConsumableInterrupt(tape, i)
  {
    var s := Run(Init(tape), evs);
    RunKeepsPrefixInv(tape, evs);
    RunKeepsThreadInv(tape, evs);
    var k :| 0 <= k < |s.raises| && s.raises[k].head != s.raises[k].index;
    assert GoodRaise(s.tape, s.idx, s.executed, s.raises[k]);
    i := s.raises[k].index;
    forall j | 0 <= j <= i ensures Consumable(tape[j]) {
      assert Accepts(DEFAULT_STRICTNESS, tape[j], s.log[j].call);
    }
  }

  /** The thread alone gets to the point of raising a waiting head. */
  lemma {:induction false} GetsToRaising(s: State) returns (n: nat)
    requires PrefixInv(s) && ThreadInv(s) && HeadWaits(s)
    ensures Turns(s, n).thread.Raising? && Turns(s, n).thread.at == s.idx
    decreases Distance(s)
  {
    if s.thread.Raising? && s.thread.at == s.idx {
      n := 0;
    } else {
      TurnGetsCloser(s);
      TurnKeepsTheRest(s);
      NotRaisedElsewhere(s);
      n := GetsToRaising(TakeTurn(s));
      n := n + 1;
    }
  }

  /** Only the turn that raises the head makes it raised. */
  lemma NotRaisedElsewhere(s: State)
    requires ThreadInv(s) && HeadWaits(s) && !(s.thread.Raising? && s.thread.at == s.idx)
    ensures !IsRaised(TakeTurn(s).raises, s.idx) && !LastRaised(TakeTurn(s).raises, s.idx)
  {
    if LastRaised(TakeTurn(s).raises, s.idx) {
      LastIsRaised(TakeTurn(s).raises, s.idx);
    }
  }

  /** A schedule that takes the thread to the point of raising record i, consumes the record, and only
      then lets the thread raise it. */
  lemma ConsumedBeforeRaised(tape: seq<Record>, i: nat) returns (evs: seq<Event>)
    requires ConsumableInterrupt(tape, i) && forall e <- tape :: Fits(e)
    ensures HasStale(Run(Init(tape), evs)) && !Run(Init(tape), evs).aborted
  {
    assert forall k | 0 <= k <= i :: tape[k] in tape;
    evs := ConsumablePrefixIsReached(tape, i);
    evs := CounterReaches(tape, evs, i, tape[i].icount);
    ReachedFacts(tape, evs, i);
    var n := GetsToRaising(Run(Init(tape), evs));
    evs := TurnsReach(tape, evs, i, n);
    ReachedFacts(tape, evs, i);
    var call :| !Ignored(call) && Accepts(DEFAULT_STRICTNESS, tape[i], call);
    AppendEvent(Init(tape), evs, Callback(call));
    AppendEvent(Init(tape), evs + [Callback(call)], ThreadTurn);
    hide Run, Disciplined, Step;
    LateTurn(Run(Init(tape), evs), call);
    evs := evs + [Callback(call)] + [ThreadTurn];
  }

  /** A record consumed when the thread is about to raise it is raised late. */
  lemma LateTurn(s: State, call: Call)
    requires IndexOk(s) && s.thread.Raising? && s.thread.at == s.idx && !s.aborted
    requires !Ignored(call) && Accepts(s.strict, s.tape[s.idx], call)
    ensures var s' := Step(Step(s, Callback(call)), ThreadTurn); HasStale(s') && !s'.aborted
  {
    hide Accepts, AsInt, Answer;
    var s' := Step(Step(s, Callback(call)), ThreadTurn);
    assert s'.raises[|s.raises|].head == s.idx + 1 && s'.raises[|s.raises|].index == s.idx;
  }

  /** A tape has a schedule with a late raise if and only if some interrupt of it has nothing but
      consumable records up to and including itself. */
  lemma StaleRaiseIff(tape: seq<Record>)
    requires forall e <- tape :: Fits(e)
    ensures (exists evs :: HasStale(Run(Init(tape), evs))) <==> (exists i :: ConsumableInterrupt(tape, i))
  {
    hide HasStale, ConsumableInterrupt, Run;
    if evs :| HasStale(Run(Init(tape), evs)) {
      var i := StaleRecordIsConsumable(tape, evs);
    }
    if i: nat :| ConsumableInterrupt(tape, i) {
      var evs := ConsumedBeforeRaised(tape, i);
    }
  }
}
