// The probe (virtuals/probe/probe.c:42-64, 142-150, 172-216, 232, 475-504): a run-length encoded trace
// of executed blocks in a ring, and the counters that end a run that makes no progress.
module Probe {

  const BBL_TRACE_SIZE: nat := 10000
  const MAX_IGNORED_BBLS: nat := 1000000
  const NO_NEW_COVERAGE_THRESHOLD: nat := 5000000
  const PROBE_POLL_THRESHOLD: nat := 1000
  const U32: nat := 0x1_0000_0000
  const U64: nat := 0x1_0000_0000_0000_0000

  // ----- run-length encoding -----

  datatype Entry = Entry(pc: nat, count: nat)

  /** The encoding of a whole execution, one block at a time. */
  function Rle(stream: seq<nat>): (entries: seq<Entry>)
    ensures stream != [] <==> entries != []
    ensures stream != [] ==> entries[|entries| - 1].pc == stream[|stream| - 1]
  {
    if stream == [] then [] else OneMore(Rle(stream[..|stream| - 1]), stream[|stream| - 1])
  }

  function OneMore(before: seq<Entry>, pc: nat): (entries: seq<Entry>)
    ensures entries != [] && entries[|entries| - 1].pc == pc
  {
    var n := |before|;
    if n > 0 && before[n - 1].pc == pc then before[..n - 1] + [Entry(pc, before[n - 1].count + 1)]
    else before + [Entry(pc, 1)]
  }

  function Repeat(pc: nat, count: nat): (s: seq<nat>)
    ensures |s| == count
  {
    seq(count, _ => pc)
  }

  function Expand(entries: seq<Entry>): seq<nat> {
    if entries == [] then []
    else
      var last := entries[|entries| - 1];
      Expand(entries[..|entries| - 1]) + Repeat(last.pc, last.count)
  }

  /** Every entry stands for a whole run: not empty, and not continued by the next. */
  ghost predicate Maximal(entries: seq<Entry>) {
    && (forall i | 0 <= i < |entries| :: entries[i].count >= 1)
    && (forall i | 0 < i < |entries| :: entries[i - 1].pc != entries[i].pc)
  }

  lemma ExpandGrows(entries: seq<Entry>, e: Entry)
    ensures Expand(entries + [e]) == Expand(entries) + Repeat(e.pc, e.count)
  {
    assert (entries + [e])[..|entries|] == entries;
  }

  lemma RepeatOneMore(pc: nat, count: nat)
    ensures Repeat(pc, count + 1) == Repeat(pc, count) + [pc]
  {
  }

  lemma {:induction false} RleIsMaximal(stream: seq<nat>)
    ensures Maximal(Rle(stream))
  {
    if stream != [] {
      RleIsMaximal(stream[..|stream| - 1]);
    }
  }

  lemma OneMoreExpands(before: seq<Entry>, pc: nat)
    ensures Expand(OneMore(before, pc)) == Expand(before) + [pc]
  {
    hide Expand, Repeat;
    var n := |before|;
    if n > 0 && before[n - 1].pc == pc {
      var rest, count := before[..n - 1], before[n - 1].count;
      assert rest + [before[n - 1]] == before && before[n - 1] == Entry(pc, count);
      ExpandGrows(rest, Entry(pc, count));
      ExpandGrows(rest, Entry(pc, count + 1));
      RepeatOneMore(pc, count);
    } else {
      ExpandGrows(before, Entry(pc, 1));
      RepeatOneMore(pc, 0);
    }
  }

  /** The encoding expands to the execution. */
  lemma {:induction false} RleExpandsBack(stream: seq<nat>)
    ensures Expand(Rle(stream)) == stream
  {
    hide OneMore;
    if stream != [] {
      var init, pc := stream[..|stream| - 1], stream[|stream| - 1];
      RleExpandsBack(init);
      OneMoreExpands(Rle(init), pc);
    }
  }

  /** And it is the only list of whole runs that does. */
  lemma {:induction false} RleIsUnique(entries: seq<Entry>)
    requires Maximal(entries)
    ensures Rle(Expand(entries)) == entries
  {
    if entries != [] {
      var init, last := entries[..|entries| - 1], entries[|entries| - 1];
      assert entries == init + [last];
      RleIsUnique(init);
      RunOfOne(Expand(init), init, last.pc, last.count);
    }
  }

  lemma StreamGrows(stream: seq<nat>, pc: nat)
    ensures Rle(stream + [pc]) == OneMore(Rle(stream), pc)
  {
    assert (stream + [pc])[..|stream|] == stream;
  }

  lemma {:induction false} RunOfOne(stream: seq<nat>, entries: seq<Entry>, pc: nat, count: nat)
    requires Rle(stream) == entries && count >= 1
    requires entries == [] || entries[|entries| - 1].pc != pc
    ensures Rle(stream + Repeat(pc, count)) == entries + [Entry(pc, count)]
  {
    hide Rle;
    RepeatOneMore(pc, count - 1);
    var before := stream + Repeat(pc, count - 1);
    assert stream + Repeat(pc, count) == before + [pc];
    StreamGrows(before, pc);
    if count == 1 {
      assert before == stream;
    } else {
      RunOfOne(stream, entries, pc, count - 1);
      assert (entries + [Entry(pc, count - 1)])[..|entries|] == entries;
    }
  }

  /** Counts as the ring keeps them, in 32 bits. */
  function Cut(e: Entry): Entry {
    Entry(e.pc, e.count % U32)
  }

  /** The last n entries of an encoding, as they are dumped. */
  function LastEntries(entries: seq<Entry>, n: nat): (r: seq<Entry>)
    requires n <= |entries|
    ensures |r| == n
    ensures forall i | 0 <= i < n :: r[i] == Cut(entries[|entries| - n + i])
  {
    seq(n, i requires 0 <= i < n => Cut(entries[|entries| - n + i]))
  }

  // ----- counters, as readings of what happened -----

  datatype Event =
    | Exec(pc: nat)
    | Translate
    | MmioRead(addr: nat, value: nat)
    | MmioWrite

  function Executed(log: seq<Event>): seq<nat> {
    if log == [] then []
    else
      var last := log[|log| - 1];
      if last.Exec? then Executed(log[..|log| - 1]) + [last.pc] else Executed(log[..|log| - 1])
  }

  predicate IsIgnored(ev: Event, ignores: seq<nat>) {
    ev.Exec? && ev.pc in ignores
  }

  predicate IsWork(ev: Event, ignores: seq<nat>) {
    ev.Exec? && ev.pc !in ignores
  }

  /** How many events of a kind came after the last event of another kind. */
  function WorkSinceNovel(log: seq<Event>, ignores: seq<nat>): nat {
    if log == [] then 0
    else
      var last := log[|log| - 1];
      if last.Translate? || IsIgnored(last, ignores) then 0
      else WorkSinceNovel(log[..|log| - 1], ignores) + if last.Exec? then 1 else 0
  }

  function IgnoredSinceWork(log: seq<Event>, ignores: seq<nat>): nat {
    if log == [] then 0
    else
      var last := log[|log| - 1];
      if IsWork(last, ignores) then 0
      else IgnoredSinceWork(log[..|log| - 1], ignores) + if last.Exec? then 1 else 0
  }

  /** The MMIO accesses alone. */
  function Accesses(log: seq<Event>): seq<Event> {
    if log == [] then []
    else
      var last := log[|log| - 1];
      if last.MmioRead? || last.MmioWrite? then Accesses(log[..|log| - 1]) + [last] else Accesses(log[..|log| - 1])
  }

  /** The longest tail of equal elements. */
  function TailRun(s: seq<Event>): (n: nat)
    ensures n <= |s| && (s != [] ==> n > 0)
    ensures forall i | |s| - n <= i < |s| :: s[i] == s[|s| - 1]
    ensures n < |s| ==> s[|s| - n - 1] != s[|s| - 1]
  {
    if |s| <= 1 then |s|
    else if s[|s| - 2] == s[|s| - 1] then 1 + TailRun(s[..|s| - 1])
    else 1
  }

  /** Identical reads in a row, no write between. */
  function Polls(log: seq<Event>): nat {
    var accesses := Accesses(log);
    if accesses == [] || accesses[|accesses| - 1].MmioWrite? then 0 else TailRun(accesses)
  }

  /** The counters mean what their names say: n events of work end the log, after a translation or an
      ignored block or the beginning. */
  predicate NovelBefore(log: seq<Event>, ignores: seq<nat>, k: nat)
    requires k <= |log|
  {
    && (k > 0 ==> log[k - 1].Translate? || IsIgnored(log[k - 1], ignores))
    && forall i | k <= i < |log| :: !log[i].Translate? && !IsIgnored(log[i], ignores)
  }

  lemma {:induction false} WorkIsCountedFromNovelty(log: seq<Event>, ignores: seq<nat>) returns (k: nat)
    ensures k <= |log| && NovelBefore(log, ignores, k)
    ensures WorkSinceNovel(log, ignores) == |Executed(log[k..])|
    ensures forall pc | pc in Executed(log[k..]) :: pc !in ignores
  {
    if log == [] {
      k := 0;
    } else {
      var init, last := log[..|log| - 1], log[|log| - 1];
      if last.Translate? || IsIgnored(last, ignores) {
        k := |log|;
        assert log[k..] == [];
      } else {
        k := WorkIsCountedFromNovelty(init, ignores);
        assert log[k..][..|log[k..]| - 1] == init[k..];
      }
    }
  }

  /** The log from k on holds no block that is not ignored, and k is its beginning or follows one that is work. */
  predicate WorkBefore(log: seq<Event>, ignores: seq<nat>, k: nat)
    requires k <= |log|
  {
    && (k > 0 ==> IsWork(log[k - 1], ignores))
    && forall i | k <= i < |log| :: !IsWork(log[i], ignores)
  }

  /** The idle counter is the number of ignored blocks since the last one that was not. */
  lemma {:induction false} IdleIsCountedFromWork(log: seq<Event>, ignores: seq<nat>) returns (k: nat)
    ensures k <= |log| && WorkBefore(log, ignores, k)
    ensures IgnoredSinceWork(log, ignores) == |Executed(log[k..])|
    ensures forall pc | pc in Executed(log[k..]) :: pc in ignores
  {
    if log == [] {
      k := 0;
    } else {
      var init, last := log[..|log| - 1], log[|log| - 1];
      if IsWork(last, ignores) {
        k := |log|;
        assert log[k..] == [];
      } else {
        k := IdleIsCountedFromWork(init, ignores);
        assert log[k..][..|log[k..]| - 1] == init[k..];
      }
    }
  }

  // ----- the probe -----

  lemma LogGrows(log: seq<Event>, ev: Event, ignores: seq<nat>)
    ensures Executed(log + [ev]) == if ev.Exec? then Executed(log) + [ev.pc] else Executed(log)
    ensures WorkSinceNovel(log + [ev], ignores) ==
            if ev.Translate? || IsIgnored(ev, ignores) then 0
            else WorkSinceNovel(log, ignores) + if ev.Exec? then 1 else 0
    ensures IgnoredSinceWork(log + [ev], ignores) ==
            if IsWork(ev, ignores) then 0 else IgnoredSinceWork(log, ignores) + if ev.Exec? then 1 else 0
    ensures Accesses(log + [ev]) == if ev.MmioRead? || ev.MmioWrite? then Accesses(log) + [ev] else Accesses(log)
  {
    assert (log + [ev])[..|log|] == log;
  }

  lemma PollsGrow(log: seq<Event>, ev: Event)
    requires ev.MmioRead? || ev.MmioWrite?
    ensures Accesses(log + [ev]) == Accesses(log) + [ev]
    ensures Polls(log + [ev]) ==
            if ev.MmioWrite? then 0
            else if Polls(log) > 0 && Accesses(log)[|Accesses(log)| - 1] == ev then Polls(log) + 1 else 1
  {
    assert (log + [ev])[..|log|] == log;
    var before := Accesses(log);
    assert (before + [ev])[..|before|] == before;
  }

  datatype Verdict = GoOn | IdleStarvation | NoNewCoverage | PeripheralStatusWait

  class Monitor {
    const ignores: seq<nat>
    const tracePc: array<nat>
    const traceCount: array<nat>
    var bblIdx: nat
    var instructionCount: nat
    var lastNovel: nat
    var ignoredCount: nat
    var lastReadAddr: nat
    var lastReadValue: nat
    var polls: nat
    ghost var log: seq<Event>

    /** The ring holds the last entries of the encoding, entry i at i modulo its size. */
    ghost predicate RingOk(entries: seq<Entry>)
      reads this`bblIdx, tracePc, traceCount
    {
      && tracePc.Length == traceCount.Length == BBL_TRACE_SIZE && tracePc != traceCount
      && bblIdx == |entries|
      && forall i | 0 <= i < |entries| && |entries| - BBL_TRACE_SIZE <= i ::
           tracePc[i % BBL_TRACE_SIZE] == entries[i].pc && traceCount[i % BBL_TRACE_SIZE] == entries[i].count % U32
    }

    ghost predicate CountersOk()
      reads this
    {
      && instructionCount == (lastNovel + WorkSinceNovel(log, ignores)) % U64 && lastNovel < U64
      && WorkSinceNovel(log, ignores) <= NO_NEW_COVERAGE_THRESHOLD
      && ignoredCount == IgnoredSinceWork(log, ignores) <= MAX_IGNORED_BBLS
    }

    ghost predicate PollsOk()
      reads this
    {
      && polls == Polls(log) < PROBE_POLL_THRESHOLD
      && (polls > 0 ==> Accesses(log)[|Accesses(log)| - 1] == MmioRead(lastReadAddr, lastReadValue))
    }

    ghost predicate Valid()
      reads this, tracePc, traceCount
    {
      RingOk(Rle(Executed(log))) && CountersOk() && PollsOk()
    }

    constructor (skipped: seq<nat>)
      ensures Valid() && log == [] && ignores == skipped && fresh(tracePc) && fresh(traceCount)
    {
      ignores := skipped;
      tracePc := new nat[BBL_TRACE_SIZE](_ => 0);
      traceCount := new nat[BBL_TRACE_SIZE](_ => 0);
      bblIdx, instructionCount, lastNovel, ignoredCount, lastReadAddr, lastReadValue, polls := 0, 0, 0, 0, 0, 0, 0;
      log := [];
    }

    static lemma ApartInRing(i: nat, j: nat)
      requires i < j < i + BBL_TRACE_SIZE
      ensures i % BBL_TRACE_SIZE != j % BBL_TRACE_SIZE
    {
      var turns := j / BBL_TRACE_SIZE - i / BBL_TRACE_SIZE;
      assert j - i == turns * BBL_TRACE_SIZE + (j % BBL_TRACE_SIZE - i % BBL_TRACE_SIZE);
    }

    /** The 64-bit difference of the counters is the number of blocks between them. */
    static lemma Difference(count: nat, last: nat, work: nat)
      requires count == (last + work) % U64 && last < U64 && work + 1 < U64
      ensures (count + 1) % U64 == (last + work + 1) % U64
      ensures ((count + 1) % U64 - last) % U64 == work + 1
    {
      assert count == if last + work < U64 then last + work else last + work - U64;
    }

    /** The ring part of probe_vcpu_tb_exec: the last entry goes on, or a new one takes the oldest place. */
    method Trace(pc: nat, ghost stream: seq<nat>)
      requires RingOk(Rle(stream))
      modifies this`bblIdx, tracePc, traceCount
      ensures RingOk(Rle(stream + [pc]))
    {
      StreamGrows(stream, pc);
      hide Rle;
      if bblIdx > 0 {
        var lastIdx := (bblIdx - 1) % BBL_TRACE_SIZE;
        if tracePc[lastIdx] == pc {
          Bump(lastIdx, Rle(stream));
        } else {
          Append(pc, Rle(stream));
        }
      } else {
        Append(pc, Rle(stream));
      }
    }

    static lemma OneMoreModulo(n: nat)
      ensures (n % U32 + 1) % U32 == (n + 1) % U32
    {
    }

    method Bump(lastIdx: nat, ghost entries: seq<Entry>)
      requires RingOk(entries) && bblIdx > 0 && lastIdx == (bblIdx - 1) % BBL_TRACE_SIZE
      modifies traceCount
      ensures RingOk(OneMore(entries, entries[bblIdx - 1].pc))
    {
      forall i: nat | i + 1 < bblIdx <= i + BBL_TRACE_SIZE ensures i % BBL_TRACE_SIZE != lastIdx {
        ApartInRing(i, bblIdx - 1);
      }
      ghost var last := entries[bblIdx - 1];
      ghost var longer := OneMore(entries, last.pc);
      assert longer == entries[..bblIdx - 1] + [Entry(last.pc, last.count + 1)];
      assert forall i | 0 <= i < bblIdx - 1 :: longer[i] == entries[i];
      assert (last.count % U32 + 1) % U32 == (last.count + 1) % U32 by { OneMoreModulo(last.count); }
      hide OneMore;
      traceCount[lastIdx] := (traceCount[lastIdx] + 1) % U32;
    }

    method Append(pc: nat, ghost entries: seq<Entry>)
      requires RingOk(entries)
      modifies this`bblIdx, tracePc, traceCount
      ensures RingOk(entries + [Entry(pc, 1)])
    {
      forall i: nat | i < bblIdx < i + BBL_TRACE_SIZE ensures i % BBL_TRACE_SIZE != bblIdx % BBL_TRACE_SIZE {
        ApartInRing(i, bblIdx);
      }
      var newIdx := bblIdx % BBL_TRACE_SIZE;
      tracePc[newIdx] := pc;
      traceCount[newIdx] := 1;
      bblIdx := bblIdx + 1;
    }

    /** The trace dump of probe_write_result. */
    method DumpTrace() returns (dump: seq<Entry>)
      requires Valid()
      ensures var entries := Rle(Executed(log));
              dump == LastEntries(entries, if |entries| < BBL_TRACE_SIZE then |entries| else BBL_TRACE_SIZE)
    {
      hide Rle, Executed, CountersOk, PollsOk;
      ghost var entries := Rle(Executed(log));
      var count := if bblIdx < BBL_TRACE_SIZE then bblIdx else BBL_TRACE_SIZE;
      var start := if bblIdx < BBL_TRACE_SIZE then 0 else bblIdx % BBL_TRACE_SIZE;
      dump := [];
      for i := 0 to count
        invariant |dump| == i && forall k | 0 <= k < i :: dump[k] == LastEntries(entries, count)[k]
      {
        SlotOfEntry(bblIdx, i);
        dump := dump + [Entry(tracePc[(start + i) % BBL_TRACE_SIZE], traceCount[(start + i) % BBL_TRACE_SIZE])];
      }
    }

    static lemma SlotOfEntry(n: nat, i: nat)
      requires i < n && i < BBL_TRACE_SIZE
      ensures n >= BBL_TRACE_SIZE ==>
                (n % BBL_TRACE_SIZE + i) % BBL_TRACE_SIZE == (n - BBL_TRACE_SIZE + i) % BBL_TRACE_SIZE
    {
    }

    /** The counters of probe_vcpu_tb_exec. */
    method Count(pc: nat, ghost was: seq<Event>) returns (verdict: Verdict)
      requires log == was + [Exec(pc)]
      requires instructionCount == (lastNovel + WorkSinceNovel(was, ignores)) % U64 && lastNovel < U64
      requires WorkSinceNovel(was, ignores) <= NO_NEW_COVERAGE_THRESHOLD
      requires ignoredCount == IgnoredSinceWork(was, ignores) <= MAX_IGNORED_BBLS
      modifies this`instructionCount, this`lastNovel, this`ignoredCount
      ensures verdict.NoNewCoverage? <==> WorkSinceNovel(log, ignores) > NO_NEW_COVERAGE_THRESHOLD
      ensures verdict.IdleStarvation? <==> IgnoredSinceWork(log, ignores) > MAX_IGNORED_BBLS
      ensures verdict.GoOn? ==> CountersOk()
      ensures !verdict.PeripheralStatusWait?
    {
      hide WorkSinceNovel, IgnoredSinceWork, Executed, Accesses;
      LogGrows(was, Exec(pc), ignores);
      Difference(instructionCount, lastNovel, WorkSinceNovel(was, ignores));
      verdict := GoOn;
      if pc in ignores {
        ignoredCount := ignoredCount + 1;
        lastNovel := instructionCount;
        if ignoredCount > MAX_IGNORED_BBLS {
          verdict := IdleStarvation;
        }
      } else {
        ignoredCount := 0;
        instructionCount := (instructionCount + 1) % U64;
        if (instructionCount - lastNovel) % U64 > NO_NEW_COVERAGE_THRESHOLD {
          verdict := NoNewCoverage;
        }
      }
    }

    /** probe_vcpu_tb_exec: the run ends when 5,000,000 blocks of work brought nothing new, or after
        1,000,000 ignored blocks in a row, and not before. */
    method TbExec(pc: nat) returns (verdict: Verdict)
      requires Valid()
      modifies this, tracePc, traceCount
      ensures log == old(log) + [Exec(pc)] && RingOk(Rle(Executed(log)))
      ensures verdict.NoNewCoverage? <==> WorkSinceNovel(log, ignores) > NO_NEW_COVERAGE_THRESHOLD
      ensures verdict.IdleStarvation? <==> IgnoredSinceWork(log, ignores) > MAX_IGNORED_BBLS
      ensures verdict.GoOn? ==> Valid()
      ensures !verdict.PeripheralStatusWait?
    {
      hide Rle, Polls, Accesses, WorkSinceNovel, IgnoredSinceWork, Executed;
      ghost var was := log;
      LogGrows(was, Exec(pc), ignores);
      SamePolls(was, Exec(pc));
      Trace(pc, Executed(was));
      log := was + [Exec(pc)];
      verdict := Count(pc, was);
    }

    static lemma SamePolls(log: seq<Event>, ev: Event)
      requires ev.Exec? || ev.Translate?
      ensures Accesses(log + [ev]) == Accesses(log) && Polls(log + [ev]) == Polls(log)
    {
      assert (log + [ev])[..|log|] == log;
    }

    /** A translated block is new: the stall counter starts over (probe_vcpu_tb_trans). */
    method TbTranslate()
      requires Valid()
      modifies this`lastNovel, this`log
      ensures Valid() && log == old(log) + [Translate]
      ensures instructionCount == lastNovel
    {
      hide Rle, Polls, Accesses, WorkSinceNovel, IgnoredSinceWork, Executed;
      LogGrows(log, Translate, ignores);
      SamePolls(log, Translate);
      lastNovel := instructionCount;
      log := log + [Translate];
    }

    /** probe_check_read: the run ends at the thousandth identical read in a row. */
    method CheckRead(addr: nat, value: nat) returns (verdict: Verdict)
      requires Valid()
      modifies this`lastReadAddr, this`lastReadValue, this`polls, this`log
      ensures log == old(log) + [MmioRead(addr, value)]
      ensures verdict == if Polls(log) >= PROBE_POLL_THRESHOLD then PeripheralStatusWait else GoOn
      ensures verdict.GoOn? ==> Valid()
    {
      hide Rle, Polls, Accesses, WorkSinceNovel, IgnoredSinceWork, Executed;
      LogGrows(log, MmioRead(addr, value), ignores);
      PollsGrow(log, MmioRead(addr, value));
      verdict := GoOn;
      log := log + [MmioRead(addr, value)];
      if addr == lastReadAddr && value == lastReadValue {
        polls := polls + 1;
        if polls >= PROBE_POLL_THRESHOLD {
          verdict := PeripheralStatusWait;
        }
      } else {
        lastReadAddr, lastReadValue, polls := addr, value, 1;
      }
    }

    /** probe_check_write */
    method CheckWrite()
      requires Valid()
      modifies this`polls, this`log
      ensures Valid() && log == old(log) + [MmioWrite] && Polls(log) == 0
    {
      hide Rle, Polls, Accesses, WorkSinceNovel, IgnoredSinceWork, Executed;
      LogGrows(log, MmioWrite, ignores);
      PollsGrow(log, MmioWrite);
      log := log + [MmioWrite];
      polls := 0;
    }
  }
}
