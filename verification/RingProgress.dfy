// That the tracer gets through what was logged, whatever happens between its turns, and that a drain wait
// ends (core/core.c:875-910).
module RingProgress {
  import opened CInts
  import opened Options
  import opened Coverage
  import opened TraceRing

  /** How many turns of the tracer a schedule holds. */
  function TracerTurns(evs: seq<Event>): (n: nat) {
    if evs == [] then 0 else TracerTurns(evs[..|evs| - 1]) + if evs[|evs| - 1].TracerTurn? then 1 else 0
  }

  /** How far the tracer is: four accesses for each word. */
  function Phase(s: State): int {
    4 * s.acked + match s.pc case Polling => 0 case Loaded(_) => 1 case Folded => 2 case Advanced => 3
  }

  ghost predicate Sound(s: State) {
    Shape(s) && Inv(s) && Covered(s)
  }

  /** A turn of the tracer is one access further, or there is no word it has not acknowledged. */
  lemma TurnAdvances(s: State, now: word)
    requires Sound(s)
    ensures Phase(TakeTurn(s, now)) == Phase(s) + 1 || Phase(s) == Phase(TakeTurn(s, now)) == 4 * |s.logged|
    ensures TakeTurn(s, now).logged == s.logged
  {
    hide Observe, Fold, Values, Stored, GoodDrain, IndexOf;
    if s.pc.Polling? && TakeTurn(s, now) == s {
      EqualIndices(|s.observed|, |s.logged|);
      NoneInFlight(|s.logged| - |s.observed|);
    }
  }

  lemma NoneInFlight(n: nat)
    requires n < WORDS && n % WORDS == 0
    ensures n == 0
  {
  }

  lemma OthersStandStill(s: State, ev: Event)
    requires Sound(s) && !ev.TracerTurn?
    ensures Phase(Step(s, ev)) == Phase(s) && s.logged <= Step(s, ev).logged
  {
    hide Observe, Inv, Covered;
  }

  lemma {:induction false} TurnsGetThrough(s: State, evs: seq<Event>, goal: nat)
    requires Sound(s) && goal <= |s.logged|
    ensures var s' := Run(s, evs);
            && Sound(s') && s.logged <= s'.logged
            && (Phase(s') >= 4 * goal || Phase(s') >= Phase(s) + TracerTurns(evs))
  {
    hide Step, Inv, Covered, Phase, TakeTurn;
    if evs != [] {
      var init, last := evs[..|evs| - 1], evs[|evs| - 1];
      TurnsGetThrough(s, init, goal);
      StepKeepsInv(Run(s, init), last);
      if last.TracerTurn? {
        TurnIsStep(Run(s, init), last.now);
        TurnAdvances(Run(s, init), last.now);
      } else {
        OthersStandStill(Run(s, init), last);
      }
    }
  }

  lemma TurnIsStep(s: State, now: word)
    requires Shape(s)
    ensures Step(s, TracerTurn(now)) == TakeTurn(s, now)
  {
  }

  lemma ReachedIsSound(buffer: seq<word>, start: Cov, evs: seq<Event>)
    requires |buffer| == WORDS && |start.afl.cvg| == MAP_SIZE
    ensures Sound(Run(Init(buffer, start), evs))
  {
    ObservedIsPrefixOfLogged(buffer, start, evs);
  }

  lemma PhaseIsAcked(s: State, goal: nat)
    requires Sound(s) && Phase(s) >= 4 * goal
    ensures s.acked >= goal && |s.observed| >= goal
  {
    hide Stored, GoodDrain, IndexOf, Values, Fold;
  }

  /** In every interleaving: once the tracer had four turns for each word that was logged and not acknowledged,
      all of them are folded into coverage and acknowledged. */
  lemma LoggedGetsFolded(buffer: seq<word>, start: Cov, before: seq<Event>, evs: seq<Event>)
    requires |buffer| == WORDS && |start.afl.cvg| == MAP_SIZE
    requires var s := Run(Init(buffer, start), before); TracerTurns(evs) >= 4 * (|s.logged| - s.acked)
    ensures var s, s' := Run(Init(buffer, start), before), Run(Run(Init(buffer, start), before), evs);
            s'.acked >= |s.logged| && s.logged <= s'.observed
  {
    hide Run, Inv, Covered;
    var s := Run(Init(buffer, start), before);
    ReachedIsSound(buffer, start, before);
    TurnsGetThrough(s, evs, |s.logged|);
    var s' := Run(s, evs);
    PhaseIsAcked(s', |s.logged|);
    ObservedIsLogged(s');
    assert s.logged == s'.logged[..|s.logged|];
  }

  lemma ObservedIsLogged(s: State)
    requires Sound(s)
    ensures s.observed <= s.logged && s.acked <= |s.logged|
    ensures s.consumed == IndexOf(s.acked)
    ensures s.wait.Some? ==> s.wait.value.target == IndexOf(s.wait.value.goal)
  {
  }

  /** A drain wait ends: if nothing is logged after it began, its next look once the tracer had those turns
      finds its index. */
  lemma DrainWaitEnds(buffer: seq<word>, start: Cov, before: seq<Event>, evs: seq<Event>)
    requires |buffer| == WORDS && |start.afl.cvg| == MAP_SIZE
    requires var s := Run(Init(buffer, start), before); TracerTurns(evs) >= 4 * (|s.logged| - s.acked)
    requires var s' := Run(Run(Init(buffer, start), before), evs);
             s'.wait.Some? && s'.wait.value.goal == |s'.logged| == |Run(Init(buffer, start), before).logged|
    ensures var s' := Run(Run(Init(buffer, start), before), evs); Step(s', DrainPoll).wait.None?
  {
    LoggedGetsFolded(buffer, start, before, evs);
    ReachedIsSound(buffer, start, before);
    hide Run, Inv, Covered, IndexOf;
    var s := Run(Init(buffer, start), before);
    TurnsGetThrough(s, evs, |s.logged|);
    ObservedIsLogged(Run(s, evs));
  }
}
