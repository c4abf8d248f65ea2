// The worker scheduler (src/fastdyn/swarm.py:69-149, 277-335). Polling a worker process is an input:
// each round says, for every active worker in order, whether it has exited and with what code.
module Swarm {
  import opened Options

  // ----- ports -----

  datatype Ports = Ports(monitor: int, mavlinkFirmware: int, mavlinkGcs: int, mavcesium: int,
                         rumocaHttp: int, rumocaWs: int, gdb: int)

  function AllPorts(p: Ports): set<int> {
    {p.monitor, p.mavlinkFirmware, p.mavlinkGcs, p.mavcesium, p.rumocaHttp, p.rumocaWs, p.gdb}
  }

  /** worker_ports; None stands for SwarmError. */
  function WorkerPorts(index: int, basePort: int, stride: int): Option<Ports> {
    if index < 0 || stride < 10 then None
    else
      var start := basePort + index * stride;
      if start < 1 || start + 6 > 65535 then None
      else Some(Ports(start, start + 1, start + 2, start + 3, start + 4, start + 5, start + 6))
  }

  /** Seven ports in a row, in the order of their roles. */
  predicate PortsFrom(p: Ports, start: int) {
    && p.monitor == start && p.mavlinkFirmware == start + 1 && p.mavlinkGcs == start + 2 && p.mavcesium == start + 3
    && p.rumocaHttp == start + 4 && p.rumocaWs == start + 5 && p.gdb == start + 6
  }

  lemma SteppedIndex(i: nat, j: nat, stride: nat)
    requires i < j
    ensures i * stride + stride <= j * stride
  {
    assert (j - i) * stride >= stride by { Grows(j - i, stride); }
    assert j * stride == i * stride + (j - i) * stride;
  }

  lemma Grows(k: nat, n: nat)
    requires k >= 1
    ensures k * n >= n
  {
  }

  /** Different workers never share a port. */
  lemma PortBlocksAreDisjoint(i: nat, j: nat, basePort: int, stride: int)
    requires i != j && WorkerPorts(i, basePort, stride).Some? && WorkerPorts(j, basePort, stride).Some?
    ensures AllPorts(WorkerPorts(i, basePort, stride).value) !! AllPorts(WorkerPorts(j, basePort, stride).value)
    ensures forall p | p in AllPorts(WorkerPorts(i, basePort, stride).value) :: 1 <= p <= 65535
  {
    if i < j {
      SteppedIndex(i, j, stride);
    } else {
      SteppedIndex(j, i, stride);
    }
  }

  /** build_worker_plans as far as indices and ports go: plans for all workers or an error, and an error
      exactly if a parameter is out of range or the last block does not fit. */
  method BuildPlans(instances: int, basePort: int, stride: int) returns (plans: Option<seq<Ports>>)
    ensures plans.Some? <==>
            instances >= 1 && stride >= 10 && basePort >= 1 && basePort + (instances - 1) * stride + 6 <= 65535
    ensures plans.Some? ==>
              && |plans.value| == instances
              && (forall i | 0 <= i < instances :: WorkerPorts(i, basePort, stride) == Some(plans.value[i]))
              && (forall i | 0 <= i < instances :: PortsFrom(plans.value[i], basePort + i * stride))
              && (forall i, j | 0 <= i < j < instances :: AllPorts(plans.value[i]) !! AllPorts(plans.value[j]))
  {
    if instances < 1 {
      return None;
    }
    var built := [];
    for i := 0 to instances
      invariant |built| == i
      invariant forall k | 0 <= k < i :: WorkerPorts(k, basePort, stride) == Some(built[k])
    {
      var ports := WorkerPorts(i, basePort, stride);
      if ports.None? {
        if stride >= 10 && i < instances - 1 {
          SteppedIndex(i, instances - 1, stride);
        }
        return None;
      }
      built := built + [ports.value];
    }
    assert WorkerPorts(0, basePort, stride) == Some(built[0]);
    assert WorkerPorts(instances - 1, basePort, stride) == Some(built[instances - 1]);
    forall i, j | 0 <= i < j < instances ensures AllPorts(built[i]) !! AllPorts(built[j]) {
      PortBlocksAreDisjoint(i, j, basePort, stride);
    }
    plans := Some(built);
  }

  // ----- the scheduler -----

  datatype Result<P> = Result(plan: P, returncode: int)

  /** What the scheduler did, in order. */
  datatype Item<P> = Started(plan: P) | Collected(result: Result<P>)

  /** One pass of the loop: has the time run out, and what polling each active worker gives. */
  datatype Round = Round(expired: bool, polls: seq<Option<int>>)

  datatype End = Finished | StoppedOnFailure | TimedOut | StillRunning

  function Starts<P>(log: seq<Item<P>>): (s: seq<P>)
    ensures |s| <= |log|
  {
    if log == [] then []
    else
      var last := log[|log| - 1];
      if last.Started? then Starts(log[..|log| - 1]) + [last.plan] else Starts(log[..|log| - 1])
  }

  function Collects<P>(log: seq<Item<P>>): (s: seq<Result<P>>)
    ensures |s| <= |log|
  {
    if log == [] then []
    else
      var last := log[|log| - 1];
      if last.Collected? then Collects(log[..|log| - 1]) + [last.result] else Collects(log[..|log| - 1])
  }

  function PlansOf<P>(results: seq<Result<P>>): (s: seq<P>)
    ensures |s| == |results|
  {
    seq(|results|, i requires 0 <= i < |results| => results[i].plan)
  }

  predicate Failed<P>(item: Item<P>) {
    item.Collected? && item.result.returncode != 0
  }

  /** At no moment of the log are more than `jobs` workers started and not collected. */
  ghost predicate NeverOver<P>(log: seq<Item<P>>, jobs: int) {
    forall k | 0 <= k <= |log| :: |Starts(log[..k])| - |Collects(log[..k])| <= jobs
  }

  ghost predicate NothingStartsAfterFailure<P(!new)>(log: seq<Item<P>>) {
    forall i, j | 0 <= i < j < |log| && Failed(log[i]) :: !log[j].Started?
  }

  lemma ReadingsGrow<P>(log: seq<Item<P>>, item: Item<P>)
    ensures Starts(log + [item]) == if item.Started? then Starts(log) + [item.plan] else Starts(log)
    ensures Collects(log + [item]) == if item.Collected? then Collects(log) + [item.result] else Collects(log)
  {
    assert (log + [item])[..|log|] == log;
  }

  lemma LogGrows<P>(log: seq<Item<P>>, item: Item<P>, jobs: int)
    requires NeverOver(log, jobs)
    requires item.Started? ==> |Starts(log)| - |Collects(log)| < jobs
    ensures Starts(log + [item]) == if item.Started? then Starts(log) + [item.plan] else Starts(log)
    ensures Collects(log + [item]) == if item.Collected? then Collects(log) + [item.result] else Collects(log)
    ensures NeverOver(log + [item], jobs)
  {
    hide Starts, Collects;
    ReadingsGrow(log, item);
    var more := log + [item];
    assert more[..|more|] == more && log[..|log|] == log;
    forall k | 0 <= k <= |more| ensures |Starts(more[..k])| - |Collects(more[..k])| <= jobs {
      if k <= |log| {
        assert more[..k] == log[..k];
      }
    }
  }

  /** What holds whenever the lists are looked at. */
  ghost predicate Inv<P(!new)>(plans: seq<P>, jobs: int, stop: bool, pending: seq<P>, active: seq<P>,
                               results: seq<Result<P>>, log: seq<Item<P>>)
  {
    && Starts(log) <= plans && Collects(log) == results
    && multiset(Starts(log)) == multiset(active) + multiset(PlansOf(results))
    && |Starts(log)| == |active| + |results|
    && NeverOver(log, jobs)
    && (if stop && AnyFailed(log) then pending == [] else Starts(log) + pending == plans)
    && (stop ==> NothingStartsAfterFailure(log))
  }

  lemma StartKeepsInv<P(!new)>(plans: seq<P>, jobs: int, stop: bool, pending: seq<P>, active: seq<P>,
                               results: seq<Result<P>>, log: seq<Item<P>>)
    requires Inv(plans, jobs, stop, pending, active, results, log) && pending != [] && |active| < jobs
    ensures Inv(plans, jobs, stop, pending[1..], active + [pending[0]], results, log + [Started(pending[0])])
  {
    hide NeverOver, Collects, Starts, PlansOf;
    var item := Started(pending[0]);
    LogGrows(log, item, jobs);
    StartIsNoFailure(log, item);
    assert Starts(log) + pending == (Starts(log) + [pending[0]]) + pending[1..];
  }

  lemma StartIsNoFailure<P(!new)>(log: seq<Item<P>>, item: Item<P>)
    requires item.Started?
    ensures AnyFailed(log + [item]) <==> AnyFailed(log)
    ensures !AnyFailed(log) ==> NothingStartsAfterFailure(log + [item])
  {
    var more := log + [item];
    assert more[|log|] == item && forall k | 0 <= k < |log| :: more[k] == log[k];
    if AnyFailed(log) {
      var i :| 0 <= i < |log| && Failed(log[i]);
      assert Failed(more[i]);
    }
  }

  /** launch_more: free slots are filled with the next plans. */
  method LaunchMore<P(!new)>(ghost plans: seq<P>, jobs: int, ghost stop: bool, pending: seq<P>, active: seq<P>,
                             ghost results: seq<Result<P>>, ghost log: seq<Item<P>>)
    returns (pending': seq<P>, active': seq<P>, ghost log': seq<Item<P>>)
    requires Inv(plans, jobs, stop, pending, active, results, log) && |active| <= jobs
    ensures Inv(plans, jobs, stop, pending', active', results, log')
    ensures |active'| <= jobs && (pending' != [] ==> |active'| == jobs)
    ensures active' + pending' == active + pending && |active'| >= |active|
  {
    hide Inv;
    pending', active', log' := pending, active, log;
    while pending' != [] && |active'| < jobs
      invariant Inv(plans, jobs, stop, pending', active', results, log') && |active'| <= jobs
      invariant active' + pending' == active + pending && |active'| >= |active|
      decreases |pending'|
    {
      StartKeepsInv(plans, jobs, stop, pending', active', results, log');
      log' := log' + [Started(pending'[0])];
      active', pending' := active' + [pending'[0]], pending'[1..];
    }
  }

  function PollOf(polls: seq<Option<int>>, i: nat): Option<int> {
    if i < |polls| then polls[i] else None
  }

  /** Whom a polling pass finds exited, with what, and whom still running. */
  function Exited<P>(active: seq<P>, polls: seq<Option<int>>): seq<Result<P>> {
    if active == [] then []
    else
      var n := |active| - 1;
      match PollOf(polls, n)
      case None => Exited(active[..n], polls)
      case Some(returncode) => Exited(active[..n], polls) + [Result(active[n], returncode)]
  }

  function Alive<P>(active: seq<P>, polls: seq<Option<int>>): seq<P> {
    if active == [] then []
    else
      var n := |active| - 1;
      if PollOf(polls, n).None? then Alive(active[..n], polls) + [active[n]] else Alive(active[..n], polls)
  }

  predicate AnyFailure<P>(results: seq<Result<P>>) {
    exists i | 0 <= i < |results| :: results[i].returncode != 0
  }

  lemma PlansOfGrows<P>(results: seq<Result<P>>, r: Result<P>)
    ensures PlansOf(results + [r]) == PlansOf(results) + [r.plan]
  {
  }

  predicate AnyFailed<P>(log: seq<Item<P>>) {
    exists i | 0 <= i < |log| :: Failed(log[i])
  }

  lemma {:induction false} FailuresAreResults<P(!new)>(log: seq<Item<P>>)
    ensures AnyFailed(log) <==> AnyFailure(Collects(log))
  {
    if log != [] {
      var init, last := log[..|log| - 1], log[|log| - 1];
      FailuresAreResults(init);
      assert log == init + [last];
      if last.Collected? {
        FailureGrows(init, last);
        var collected := Collects(init);
        FailureIsNew(collected, last.result);
      } else {
        assert !Failed(log[|log| - 1]);
        assert forall i | 0 <= i < |init| :: log[i] == init[i];
      }
    }
  }

  lemma CollectKeepsInv<P(!new)>(plans: seq<P>, jobs: int, stop: bool, pending: seq<P>, a: seq<P>, p: P, b: seq<P>,
                                 results: seq<Result<P>>, log: seq<Item<P>>, returncode: int)
    requires Inv(plans, jobs, stop, pending, a + [p] + b, results, log)
    ensures Inv(plans, jobs, stop, if returncode != 0 && stop then [] else pending, a + b,
                results + [Result(p, returncode)], log + [Collected(Result(p, returncode))])
  {
    hide NeverOver, Collects, Starts, PlansOf;
    var item := Collected(Result(p, returncode));
    LogGrows(log, item, jobs);
    PlansOfGrows(results, Result(p, returncode));
    FailureGrows(log, item);
  }

  lemma FailureGrows<P(!new)>(log: seq<Item<P>>, item: Item<P>)
    requires item.Collected?
    ensures AnyFailed(log + [item]) <==> AnyFailed(log) || Failed(item)
    ensures NothingStartsAfterFailure(log) ==> NothingStartsAfterFailure(log + [item])
  {
    var more := log + [item];
    assert more[|log|] == item && forall k | 0 <= k < |log| :: more[k] == log[k];
    if AnyFailed(log) {
      var i :| 0 <= i < |log| && Failed(log[i]);
      assert Failed(more[i]);
    }
  }

  lemma FailureIsNew<P>(results: seq<Result<P>>, r: Result<P>)
    ensures AnyFailure(results + [r]) <==> AnyFailure(results) || r.returncode != 0
  {
    assert (results + [r])[|results|] == r;
    if AnyFailure(results) {
      var i :| 0 <= i < |results| && results[i].returncode != 0;
      assert (results + [r])[i] == results[i];
    }
  }

  lemma PollNobody<P>(polls: seq<Option<int>>)
    ensures Exited<P>([], polls) == [] && Alive<P>([], polls) == [] && !AnyFailure<P>([])
  {
  }

  lemma WorkerBetween<P>(still: seq<P>, active: seq<P>, i: nat)
    requires i < |active|
    ensures still + active[i..] == still + [active[i]] + active[i + 1..]
  {
  }

  /** The i-th worker is collected with the code its poll gave, and stays active if there was none. */
  lemma PollOneMore<P>(active: seq<P>, polls: seq<Option<int>>, i: nat)
    requires i < |active|
    ensures if i < |polls| && polls[i].Some?
            then Exited(active[..i + 1], polls) == Exited(active[..i], polls) + [Result(active[i], polls[i].value)] &&
                 Alive(active[..i + 1], polls) == Alive(active[..i], polls)
            else Exited(active[..i + 1], polls) == Exited(active[..i], polls) &&
                 Alive(active[..i + 1], polls) == Alive(active[..i], polls) + [active[i]]
  {
    assert active[..i + 1][..i] == active[..i];
  }

  /** One exited worker. */
  method CollectOne<P(!new)>(ghost plans: seq<P>, ghost jobs: int, stop: bool, pending: seq<P>, ghost a: seq<P>, p: P,
                             ghost b: seq<P>, results: seq<Result<P>>, returncode: int, ghost log: seq<Item<P>>)
    returns (pending': seq<P>, results': seq<Result<P>>, ghost log': seq<Item<P>>)
    requires Inv(plans, jobs, stop, pending, a + [p] + b, results, log)
    ensures Inv(plans, jobs, stop, pending', a + b, results', log')
    ensures results' == results + [Result(p, returncode)]
    ensures pending' == if returncode != 0 && stop then [] else pending
  {
    hide Inv;
    CollectKeepsInv(plans, jobs, stop, pending, a, p, b, results, log, returncode);
    results' := results + [Result(p, returncode)];
    log' := log + [Collected(Result(p, returncode))];
    pending' := if returncode != 0 && stop then [] else pending;
  }

  /** The polling pass: exited workers are collected, and a failure empties the queue. */
  method Collect<P(!new)>(ghost plans: seq<P>, ghost jobs: int, stop: bool, pending: seq<P>, active: seq<P>,
                          results: seq<Result<P>>, polls: seq<Option<int>>, ghost log: seq<Item<P>>)
    returns (pending': seq<P>, still: seq<P>, results': seq<Result<P>>, ghost log': seq<Item<P>>)
    requires Inv(plans, jobs, stop, pending, active, results, log)
    ensures Inv(plans, jobs, stop, pending', still, results', log') && |still| <= |active|
    ensures results' == results + Exited(active, polls) && still == Alive(active, polls)
    ensures pending' == if stop && AnyFailure(Exited(active, polls)) then [] else pending
  {
    PollNobody<P>(polls);
    hide Inv, Exited, Alive, AnyFailure;
    pending', still, results', log' := pending, [], results, log;
    assert still + active[0..] == active;
    for i := 0 to |active|
      invariant |still| <= i
      invariant Inv(plans, jobs, stop, pending', still + active[i..], results', log')
      invariant results' == results + Exited(active[..i], polls) && still == Alive(active[..i], polls)
      invariant pending' == if stop && AnyFailure(Exited(active[..i], polls)) then [] else pending
    {
      var returncode := PollOf(polls, i);
      PollOneMore(active, polls, i);
      WorkerBetween(still, active, i);
      if returncode.None? {
        still := still + [active[i]];
      } else {
        pending', results', log' := CollectOne(plans, jobs, stop, pending', still, active[i], active[i + 1..],
                                               results', returncode.value, log');
        FailureIsNew(Exited(active[..i], polls), Result(active[i], returncode.value));
      }
    }
    assert still + active[|active|..] == still && active[..|active|] == active;
  }

  /** Everything the scheduler keeps, and how it ended. */
  datatype State<P> = State(pending: seq<P>, active: seq<P>, results: seq<Result<P>>, end: Option<End>)

  /** Free slots are filled from the front of the queue. */
  function Launched<P>(s: State<P>, jobs: nat): State<P> {
    var n := if |s.active| >= jobs then 0
             else if |s.pending| <= jobs - |s.active| then |s.pending| else jobs - |s.active|;
    s.(active := s.active + s.pending[..n], pending := s.pending[n..])
  }

  /** One pass of the loop while something is active. */
  function Pass<P>(s: State<P>, jobs: nat, stop: bool, round: Round): State<P> {
    if s.end.Some? || s.active == [] then s
    else if round.expired then s.(end := Some(TimedOut))
    else
      var exited := Exited(s.active, round.polls);
      var s' := s.(active := Alive(s.active, round.polls), results := s.results + exited);
      if stop && AnyFailure(exited) then s'.(pending := [], end := Some(StoppedOnFailure))
      else Launched(s', jobs)
  }

  /** The scheduler after some rounds. */
  function Simulate<P>(plans: seq<P>, jobs: nat, stop: bool, rounds: seq<Round>): State<P> {
    if rounds == [] then Launched(State(plans, [], [], None), jobs)
    else Pass(Simulate(plans, jobs, stop, rounds[..|rounds| - 1]), jobs, stop, rounds[|rounds| - 1])
  }

  lemma {:induction false} EndedStays<P>(plans: seq<P>, jobs: nat, stop: bool, rounds: seq<Round>, k: nat)
    requires k <= |rounds|
    requires var s := Simulate(plans, jobs, stop, rounds[..k]); s.end.Some? || s.active == []
    ensures Simulate(plans, jobs, stop, rounds) == Simulate(plans, jobs, stop, rounds[..k])
  {
    if k == |rounds| {
      assert rounds[..k] == rounds;
    } else {
      assert rounds[..|rounds| - 1][..k] == rounds[..k];
      EndedStays(plans, jobs, stop, rounds[..|rounds| - 1], k);
    }
  }

  lemma LaunchedIsUnique<P>(s: State<P>, jobs: nat, pending: seq<P>, active: seq<P>)
    requires |s.active| <= jobs
    requires active + pending == s.active + s.pending && |s.active| <= |active| <= jobs
    requires pending != [] ==> |active| == jobs
    ensures Launched(s, jobs) == s.(active := active, pending := pending)
  {
    var all := s.active + s.pending;
    var n := |active| - |s.active|;
    assert active == all[..|active|] == s.active + s.pending[..n];
    assert pending == all[|active|..] == s.pending[n..];
  }

  /** What a caller may rely on however a call ends. */
  ghost predicate Fair<P(!new)>(plans: seq<P>, jobs: int, stop: bool, active: seq<P>, results: seq<Result<P>>,
                                log: seq<Item<P>>)
  {
    && Starts(log) <= plans && Collects(log) == results && NeverOver(log, jobs)
    && multiset(Starts(log)) == multiset(active) + multiset(PlansOf(results)) && |active| <= jobs
    && (stop ==> NothingStartsAfterFailure(log))
  }

  /** run_worker_plans: what the rounds make of the plans. Every plan is started at most once, in order, and
      never more than `jobs` at a time; without an early end each plan is collected exactly once; with
      stop-on-failure nothing is started after a non-zero exit was collected; while plans wait every slot
      is taken. */
  method RunWorkerPlans<P(!new)>(plans: seq<P>, jobs: int, stop: bool, rounds: seq<Round>)
    returns (end: Option<End>, results: seq<Result<P>>, active: seq<P>, ghost log: seq<Item<P>>)
    ensures end.None? <==> jobs < 1
    ensures end.Some? ==>
              var s := Simulate(plans, jobs, stop, rounds);
              && results == s.results && active == s.active
              && end == Some(if s.end.Some? then s.end.value else if s.active == [] then Finished else StillRunning)
    ensures end.Some? ==> Fair(plans, jobs, stop, active, results, log)
    ensures end == Some(Finished) ==> active == [] && multiset(PlansOf(results)) == multiset(plans)
    ensures end == Some(StillRunning) && Starts(log) != plans ==> |active| == jobs
    ensures end == Some(StoppedOnFailure) <==> jobs >= 1 && stop && AnyFailure(results)
  {
    hide Simulate, Launched, Pass, Inv, Fair, Exited, Alive, AnyFailure, Starts, PlansOf;
    results, active, log := [], [], [];
    if jobs < 1 {
      return None, results, active, log;
    }
    var pending := plans;
    InvAtStart(plans, jobs, stop);
    pending, active, log := LaunchMore(plans, jobs, stop, pending, active, results, log);
    FirstLaunch(plans, jobs, stop, rounds, pending, active);
    var k := 0;
    while active != [] && k < |rounds|
      invariant k <= |rounds| && Inv(plans, jobs, stop, pending, active, results, log)
      invariant Simulate(plans, jobs, stop, rounds[..k]) == State(pending, active, results, None)
      invariant |active| <= jobs && (pending != [] ==> |active| == jobs)
      invariant stop ==> !AnyFailure(results)
      decreases |rounds| - k
    {
      ghost var s := State(pending, active, results, None);
      NextPass(plans, jobs, stop, rounds, k);
      if rounds[k].expired {
        ExpiredPass(s, jobs, stop, rounds[k]);
        EndedStays(plans, jobs, stop, rounds, k + 1);
        InvIsFair(plans, jobs, stop, pending, active, results, log);
        return Some(TimedOut), results, active, log;
      }
      pending, active, results, log := Collect(plans, jobs, stop, pending, active, results, rounds[k].polls, log);
      FailuresJoin(s.results, Exited(s.active, rounds[k].polls));
      if stop && AnyFailure(results) {
        StoppedPass(s, jobs, stop, rounds[k]);
        EndedStays(plans, jobs, stop, rounds, k + 1);
        InvIsFair(plans, jobs, stop, pending, active, results, log);
        return Some(StoppedOnFailure), results, active, log;
      }
      ghost var collected := State(pending, active, results, None);
      pending, active, log := LaunchMore(plans, jobs, stop, pending, active, results, log);
      LaunchedIsUnique(collected, jobs, pending, active);
      OrdinaryPass(s, jobs, stop, rounds[k]);
      k := k + 1;
    }
    InvIsFair(plans, jobs, stop, pending, active, results, log);
    if k == |rounds| {
      assert rounds[..k] == rounds;
    } else {
      EndedStays(plans, jobs, stop, rounds, k);
    }
    end := Some(if active == [] then Finished else StillRunning);
  }

  lemma InvAtStart<P(!new)>(plans: seq<P>, jobs: nat, stop: bool)
    ensures Inv(plans, jobs, stop, plans, [], [], []) && !AnyFailure<P>([])
  {
    assert [] + plans == plans;
  }

  lemma InvIsFair<P(!new)>(plans: seq<P>, jobs: int, stop: bool, pending: seq<P>, active: seq<P>,
                           results: seq<Result<P>>, log: seq<Item<P>>)
    requires Inv(plans, jobs, stop, pending, active, results, log) && |active| <= jobs
    ensures Fair(plans, jobs, stop, active, results, log)
    ensures (stop ==> !AnyFailure(results)) ==> Starts(log) + pending == plans
    ensures active == [] && Starts(log) == plans ==> multiset(PlansOf(results)) == multiset(plans)
  {
    hide NeverOver, NothingStartsAfterFailure, Starts, Collects, PlansOf;
    FailuresAreResults(log);
    assert multiset(active) + multiset(PlansOf(results)) == multiset(Starts(log));
  }

  lemma FirstLaunch<P>(plans: seq<P>, jobs: nat, stop: bool, rounds: seq<Round>, pending: seq<P>, active: seq<P>)
    requires active + pending == plans && |active| <= jobs && (pending != [] ==> |active| == jobs)
    ensures Simulate(plans, jobs, stop, rounds[..0]) == State(pending, active, [], None)
  {
    assert [] + plans == plans;
    LaunchedIsUnique(State(plans, [], [], None), jobs, pending, active);
  }

  lemma NextPass<P>(plans: seq<P>, jobs: nat, stop: bool, rounds: seq<Round>, k: nat)
    requires k < |rounds|
    ensures Simulate(plans, jobs, stop, rounds[..k + 1]) ==
            Pass(Simulate(plans, jobs, stop, rounds[..k]), jobs, stop, rounds[k])
  {
    assert rounds[..k + 1][..k] == rounds[..k];
  }

  lemma ExpiredPass<P>(s: State<P>, jobs: nat, stop: bool, round: Round)
    requires s.end.None? && s.active != [] && round.expired
    ensures Pass(s, jobs, stop, round) == s.(end := Some(TimedOut))
  {
  }

  lemma StoppedPass<P>(s: State<P>, jobs: nat, stop: bool, round: Round)
    requires s.end.None? && s.active != [] && !round.expired && stop && AnyFailure(Exited(s.active, round.polls))
    ensures Pass(s, jobs, stop, round) ==
            State([], Alive(s.active, round.polls), s.results + Exited(s.active, round.polls), Some(StoppedOnFailure))
  {
  }

  lemma OrdinaryPass<P>(s: State<P>, jobs: nat, stop: bool, round: Round)
    requires s.end.None? && s.active != [] && !round.expired && !(stop && AnyFailure(Exited(s.active, round.polls)))
    ensures Pass(s, jobs, stop, round) ==
            Launched(s.(active := Alive(s.active, round.polls), results := s.results + Exited(s.active, round.polls)), jobs)
  {
  }

  lemma FailuresJoin<P>(a: seq<Result<P>>, b: seq<Result<P>>)
    ensures AnyFailure(a + b) <==> AnyFailure(a) || AnyFailure(b)
  {
    var ab := a + b;
    assert forall i | 0 <= i < |b| :: ab[|a| + i] == b[i];
    if AnyFailure(a) {
      var i :| 0 <= i < |a| && a[i].returncode != 0;
      assert ab[i] == a[i];
    }
  }
}
