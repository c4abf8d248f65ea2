// What the tracer folds out of the log of program counters and interrupt markers
// (virtuals/fuzzer/fuzz.c:904-925, virtuals/fuzzer/cov_bbl.c): an AFL-style map, a set of edges and
// a log of novel basic blocks.
module Coverage {
  import opened Bits
  import opened CInts
  import opened Options

  const IRQ_ENTRY: word := 0xFFFFFFFD
  const IRQ_EXIT: word := 0xFFFFFFFB
  const MAP_SIZE: nat := 65536
  const QUEUE_MAX: nat := 1024

  /** One step of the tracer: a logged value with the clock reading at that moment, or a trace reset. */
  datatype Entry = Logged(value: word, now: word) | TraceReset

  datatype Block = Block(pc: word, stamp: word)
  datatype Line = Line(pc: word, insns: word, stamp: word)

  datatype Afl = Afl(prev: word, cvg: seq<int>)
  datatype Edges = Edges(last: Option<word>, pairs: set<(word, word)>)
  datatype Blocks = Blocks(known: map<word, word>, sizes: map<word, word>, queue: seq<Block>, file: seq<Line>)

  datatype Cov = Cov(edgesOn: bool, depth: int, afl: Afl, edges: Edges, blocks: Blocks, edgeFile: set<(word, word)>)

  predicate IsMarker(v: word) {
    v == IRQ_ENTRY || v == IRQ_EXIT
  }

  /** The entry is a program counter. */
  predicate IsPc(e: Entry) {
    e.Logged? && !IsMarker(e.value)
  }

  /** The Thumb bit is dropped. */
  function Mask(pc: word): (m: word)
    ensures m % 2 == 0 && m <= pc <= m + 1
  {
    pc - pc % 2
  }

  /** The byte of the map for a transition between two blocks. */
  function MapIndex(prev: word, pc: word): (i: nat)
    ensures i < MAP_SIZE
  {
    Xor(prev, pc) % MAP_SIZE
  }

  function DepthStep(depth: int, e: Entry): int {
    if e.Logged? && e.value == IRQ_ENTRY then depth + 1
    else if e.Logged? && e.value == IRQ_EXIT then depth - 1
    else depth
  }

  /** A byte counter of the map goes up, modulo 256. */
  function Bump(cvg: seq<int>, i: nat): seq<int>
    requires i < |cvg|
  {
    cvg[i := (cvg[i] + 1) % 256]
  }

  function AflStep(a: Afl, depth: int, e: Entry): (a': Afl)
    requires |a.cvg| == MAP_SIZE
    ensures |a'.cvg| == MAP_SIZE
  {
    if e.TraceReset? then a.(prev := 0)
    else if !IsPc(e) || depth != 0 then a
    else Afl(e.value, if a.prev != 0 then Bump(a.cvg, MapIndex(a.prev, e.value)) else a.cvg)
  }

  function EdgeStep(on: bool, g: Edges, depth: int, e: Entry): Edges {
    if e.TraceReset? then g.(last := None)
    else if !IsPc(e) || !on then g
    else if depth != 0 then g.(last := None)
    else Edges(Some(Mask(e.value)), if g.last.Some? then g.pairs + {(g.last.value, Mask(e.value))} else g.pairs)
  }

  /** A hash lookup that cannot tell a missing key from a zero value. */
  predicate Novel(known: map<word, word>, pc: word) {
    pc !in known || known[pc] == 0
  }

  /** This entry enqueues its block. */
  predicate Enqueues(b: Blocks, depth: int, e: Entry) {
    IsPc(e) && depth == 0 && Novel(b.known, Mask(e.value))
  }

  function Enqueue(b: Blocks, pc: word, now: word): Blocks {
    b.(known := b.known[pc := now], queue := b.queue + [Block(pc, now)])
  }

  function SizeOf(sizes: map<word, word>, pc: word): word {
    if pc in sizes then sizes[pc] else 0
  }

  function LinesOf(queue: seq<Block>, sizes: map<word, word>): (s: seq<Line>)
    ensures |s| == |queue|
    ensures forall i | 0 <= i < |s| ::
              && s[i].pc == queue[i].pc && s[i].stamp == queue[i].stamp
              && s[i].insns == if queue[i].pc in sizes then sizes[queue[i].pc] else 0
  {
    seq(|queue|, i requires 0 <= i < |queue| => Line(queue[i].pc, SizeOf(sizes, queue[i].pc), queue[i].stamp))
  }

  /** The queued blocks are appended to the file. */
  function FlushBlocks(b: Blocks): Blocks {
    b.(queue := [], file := b.file + LinesOf(b.queue, b.sizes))
  }

  /** A dump appends the queue to bbl.txt and rewrites edges.txt. */
  function Dump(c: Cov): Cov {
    c.(blocks := FlushBlocks(c.blocks), edgeFile := if c.edgesOn then c.edges.pairs else c.edgeFile)
  }

  function Observe(c: Cov, e: Entry): (c': Cov)
    requires |c.afl.cvg| == MAP_SIZE
    ensures |c'.afl.cvg| == MAP_SIZE
  {
    var d := c.(depth := DepthStep(c.depth, e),
                afl := AflStep(c.afl, c.depth, e),
                edges := EdgeStep(c.edgesOn, c.edges, c.depth, e));
    if Enqueues(c.blocks, c.depth, e) then
      var d := d.(blocks := Enqueue(c.blocks, Mask(e.value), e.now));
      if |d.blocks.queue| >= QUEUE_MAX then Dump(d) else d
    else d
  }

  function Fold(c: Cov, log: seq<Entry>): (c': Cov)
    requires |c.afl.cvg| == MAP_SIZE
    ensures |c'.afl.cvg| == MAP_SIZE
  {
    if log == [] then c else Observe(Fold(c, log[..|log| - 1]), log[|log| - 1])
  }

  function DepthAfter(depth: int, log: seq<Entry>): int {
    if log == [] then depth else DepthStep(DepthAfter(depth, log[..|log| - 1]), log[|log| - 1])
  }

  lemma {:induction false} FoldDepth(c: Cov, log: seq<Entry>)
    requires |c.afl.cvg| == MAP_SIZE
    ensures Fold(c, log).depth == DepthAfter(c.depth, log)
    ensures Fold(c, log).edgesOn == c.edgesOn
  {
    if log != [] {
      FoldDepth(c, log[..|log| - 1]);
    }
  }

  // ----- interrupts are transparent -----

  /** The log without its markers and without everything logged at a depth other than zero. */
  function Erase(depth: int, log: seq<Entry>): seq<Entry> {
    if log == [] then [] else
      var front := log[..|log| - 1];
      var e := log[|log| - 1];
      if e.TraceReset? || (IsPc(e) && DepthAfter(depth, front) == 0) then Erase(depth, front) + [e] else Erase(depth, front)
  }

  /** The same map, block log and files; edges and their file possibly fewer. */
  predicate Shadows(c: Cov, d: Cov) {
    && c.edgesOn == d.edgesOn
    && c.afl == d.afl
    && c.blocks == d.blocks
    && c.edges.pairs <= d.edges.pairs
    && c.edgeFile <= d.edgeFile
    && (c.edges.last.None? || c.edges.last == d.edges.last)
  }

  lemma ObserveShadows(c: Cov, d: Cov, e: Entry)
    requires |c.afl.cvg| == MAP_SIZE && Shadows(c, d) && d.depth == 0
    requires e.TraceReset? || (IsPc(e) && c.depth == 0)
    ensures Shadows(Observe(c, e), Observe(d, e)) && Observe(d, e).depth == 0
  {
  }

  lemma ObserveErased(c: Cov, d: Cov, e: Entry)
    requires |c.afl.cvg| == MAP_SIZE && Shadows(c, d)
    requires !e.TraceReset? && !(IsPc(e) && c.depth == 0)
    ensures Shadows(Observe(c, e), d)
  {
  }

  /**
   * For every log, erasing the interrupts leaves the map, the known blocks, the block queue and the
   * block file as they are, and can only add edges.
   */
  lemma {:induction false} InterruptsAreTransparent(c: Cov, log: seq<Entry>)
    requires |c.afl.cvg| == MAP_SIZE
    ensures Shadows(Fold(c, log), Fold(c.(depth := 0), Erase(c.depth, log)))
    ensures Fold(c.(depth := 0), Erase(c.depth, log)).depth == 0
  {
    if log != [] {
      var front, e := log[..|log| - 1], log[|log| - 1];
      InterruptsAreTransparent(c, front);
      FoldDepth(c, front);
      if e.TraceReset? || (IsPc(e) && DepthAfter(c.depth, front) == 0) {
        var kept := Erase(c.depth, front);
        assert (kept + [e])[..|kept + [e]| - 1] == kept;
        ObserveShadows(Fold(c, front), Fold(c.(depth := 0), kept), e);
      } else {
        ObserveErased(Fold(c, front), Fold(c.(depth := 0), Erase(c.depth, front)), e);
      }
    }
  }

  // ----- well-nested logs -----

  /** A log as the firmware produces it: interrupts, possibly nested, are complete. */
  datatype Trace =
    | End
    | Plain(e: Entry, rest: Trace)
    | Interrupt(entered: word, body: Trace, left: word, rest: Trace)

  predicate IsTrace(t: Trace) {
    match t
    case End => true
    case Plain(e, rest) => (e.TraceReset? || IsPc(e)) && IsTrace(rest)
    case Interrupt(_, body, _, rest) => IsTrace(body) && IsTrace(rest)
  }

  function Flatten(t: Trace): seq<Entry> {
    match t
    case End => []
    case Plain(e, rest) => [e] + Flatten(rest)
    case Interrupt(entered, body, left, rest) =>
      [Logged(IRQ_ENTRY, entered)] + Flatten(body) + [Logged(IRQ_EXIT, left)] + Flatten(rest)
  }

  function Resets(t: Trace): seq<Entry> {
    match t
    case End => []
    case Plain(e, rest) => if e.TraceReset? then [e] + Resets(rest) else Resets(rest)
    case Interrupt(_, body, _, rest) => Resets(body) + Resets(rest)
  }

  /** The trace with every interrupt segment cut out; a trace reset inside one stays. */
  function WithoutInterrupts(t: Trace): seq<Entry> {
    match t
    case End => []
    case Plain(e, rest) => [e] + WithoutInterrupts(rest)
    case Interrupt(_, body, _, rest) => Resets(body) + WithoutInterrupts(rest)
  }

  /** The markers are well nested: depth never drops below zero and ends where it began. */
  predicate Nested(log: seq<Entry>, depth: nat) {
    if log == [] then depth == 0
    else if log[0].Logged? && log[0].value == IRQ_ENTRY then Nested(log[1..], depth + 1)
    else if log[0].Logged? && log[0].value == IRQ_EXIT then depth > 0 && Nested(log[1..], depth - 1)
    else Nested(log[1..], depth)
  }

  lemma {:induction false} FlattenIsNested(t: Trace, tail: seq<Entry>, depth: nat)
    requires IsTrace(t) && Nested(tail, depth)
    ensures Nested(Flatten(t) + tail, depth)
    decreases t
  {
    match t
    case End => assert Flatten(t) + tail == tail;
    case Plain(e, rest) =>
      FlattenIsNested(rest, tail, depth);
      assert (Flatten(t) + tail)[1..] == Flatten(rest) + tail;
    case Interrupt(entered, body, left, rest) =>
      FlattenIsNested(rest, tail, depth);
      NestedCons(Logged(IRQ_EXIT, left), Flatten(rest) + tail, depth + 1);
      FlattenIsNested(body, [Logged(IRQ_EXIT, left)] + (Flatten(rest) + tail), depth + 1);
      NestedCons(Logged(IRQ_ENTRY, entered), Flatten(body) + ([Logged(IRQ_EXIT, left)] + (Flatten(rest) + tail)), depth);
      RegroupSegment([Logged(IRQ_ENTRY, entered)], Flatten(body), [Logged(IRQ_EXIT, left)], Flatten(rest), tail);
  }

  lemma NestedCons(e: Entry, log: seq<Entry>, depth: nat)
    requires e.Logged? && IsMarker(e.value)
    ensures Nested([e] + log, depth) ==
            if e.value == IRQ_ENTRY then Nested(log, depth + 1) else depth > 0 && Nested(log, depth - 1)
  {
    assert ([e] + log)[1..] == log;
  }

  lemma RegroupSegment(a: seq<Entry>, b: seq<Entry>, c: seq<Entry>, d: seq<Entry>, tail: seq<Entry>)
    ensures a + b + c + d + tail == a + (b + (c + (d + tail)))
  {
  }

  lemma JoinSegment(log: seq<Entry>, body: seq<Entry>, exit: seq<Entry>, rest: seq<Entry>, tail: seq<Entry>)
    requires log != [] && log[1..] == body + exit && exit != [] && exit[1..] == rest + tail
    ensures log == [log[0]] + body + [exit[0]] + rest + tail
  {
    assert log == [log[0]] + log[1..];
    assert exit == [exit[0]] + exit[1..];
  }

  /** Reads a trace up to the end, or up to the exit marker that closes the interrupt around it. */
  lemma {:induction false} ParseTrace(log: seq<Entry>, depth: nat) returns (t: Trace, tail: seq<Entry>)
    requires Nested(log, depth)
    ensures IsTrace(t) && log == Flatten(t) + tail
    ensures if depth == 0 then tail == []
            else tail != [] && tail[0].Logged? && tail[0].value == IRQ_EXIT && Nested(tail[1..], depth - 1)
    decreases |log|
  {
    if log == [] {
      t, tail := End, [];
    } else if log[0].Logged? && log[0].value == IRQ_EXIT {
      t, tail := End, log;
    } else if log[0].Logged? && log[0].value == IRQ_ENTRY {
      var body, exit := ParseTrace(log[1..], depth + 1);
      assert |exit[1..]| < |log|;
      var rest, tail' := ParseTrace(exit[1..], depth);
      t, tail := Interrupt(log[0].now, body, exit[0].now, rest), tail';
      JoinSegment(log, Flatten(body), exit, Flatten(rest), tail);
      assert log[0] == Logged(IRQ_ENTRY, log[0].now) && exit[0] == Logged(IRQ_EXIT, exit[0].now);
    } else {
      var rest, tail' := ParseTrace(log[1..], depth);
      t, tail := Plain(log[0], rest), tail';
      assert log == [log[0]] + log[1..];
    }
  }

  /** The well-nested logs are exactly the flattened traces. */
  lemma NestedIffTrace(log: seq<Entry>)
    ensures Nested(log, 0) <==> exists t :: IsTrace(t) && Flatten(t) == log
  {
    if Nested(log, 0) {
      var t, tail := ParseTrace(log, 0);
      assert Flatten(t) == log;
    }
    if t :| IsTrace(t) && Flatten(t) == log {
      FlattenIsNested(t, [], 0);
      assert Flatten(t) + [] == log;
    }
  }

  lemma EraseSnoc(depth: int, log: seq<Entry>)
    requires log != []
    ensures var front, e := log[..|log| - 1], log[|log| - 1];
            Erase(depth, log) == if e.TraceReset? || (IsPc(e) && DepthAfter(depth, front) == 0)
                                 then Erase(depth, front) + [e] else Erase(depth, front)
  {
  }

  lemma {:induction false} DepthAppend(depth: int, a: seq<Entry>, b: seq<Entry>)
    ensures DepthAfter(depth, a + b) == DepthAfter(DepthAfter(depth, a), b)
    decreases |b|
  {
    if b == [] {
      assert a + b == a;
    } else {
      assert (a + b)[..|a + b| - 1] == a + b[..|b| - 1];
      DepthAppend(depth, a, b[..|b| - 1]);
    }
  }

  lemma {:induction false} EraseAppend(depth: int, a: seq<Entry>, b: seq<Entry>)
    ensures Erase(depth, a + b) == Erase(depth, a) + Erase(DepthAfter(depth, a), b)
    decreases |b|
  {
    if b == [] {
      assert a + b == a;
    } else {
      var front := b[..|b| - 1];
      assert (a + b)[..|a + b| - 1] == a + front;
      EraseAppend(depth, a, front);
      DepthAppend(depth, a, front);
    }
  }

  lemma EraseOne(depth: int, e: Entry)
    ensures Erase(depth, [e]) == if e.TraceReset? || (IsPc(e) && depth == 0) then [e] else []
    ensures DepthAfter(depth, [e]) == DepthStep(depth, e)
  {
    assert [e][..0] == [];
  }

  lemma EraseConcat(depth: int, a: seq<Entry>, b: seq<Entry>, erased: seq<Entry>, after: int)
    requires Erase(depth, a) == erased && DepthAfter(depth, a) == after
    ensures Erase(depth, a + b) == erased + Erase(after, b)
    ensures DepthAfter(depth, a + b) == DepthAfter(after, b)
  {
    EraseAppend(depth, a, b);
    DepthAppend(depth, a, b);
  }

  /** A complete interrupt erases to what its body erases to one level deeper. */
  lemma EraseSegment(depth: int, enter: Entry, body: seq<Entry>, exit: Entry, rest: seq<Entry>)
    requires enter.Logged? && enter.value == IRQ_ENTRY && exit.Logged? && exit.value == IRQ_EXIT
    requires DepthAfter(depth + 1, body) == depth + 1
    ensures Erase(depth, [enter] + body + [exit] + rest) == Erase(depth + 1, body) + Erase(depth, rest)
    ensures DepthAfter(depth, [enter] + body + [exit] + rest) == DepthAfter(depth, rest)
  {
    var inner := Erase(depth + 1, body);
    EraseOne(depth, enter);
    EraseOne(depth + 1, exit);
    EraseConcat(depth, [enter], body, [], depth + 1);
    EraseConcat(depth, [enter] + body, [exit], [] + inner, depth + 1);
    EraseConcat(depth, [enter] + body + [exit], rest, [] + inner + [], depth);
    assert [] + inner + [] + Erase(depth, rest) == inner + Erase(depth, rest);
  }

  /** Erasing by depth is cutting the segments out: at depth zero the segments go, inside one only resets stay. */
  lemma {:induction false} EraseCutsSegments(t: Trace, depth: nat)
    requires IsTrace(t)
    ensures Erase(depth, Flatten(t)) == if depth == 0 then WithoutInterrupts(t) else Resets(t)
    ensures DepthAfter(depth, Flatten(t)) == depth
    decreases t
  {
    match t
    case End =>
    case Plain(e, rest) =>
      EraseCutsSegments(rest, depth);
      EraseOne(depth, e);
      EraseAppend(depth, [e], Flatten(rest));
      DepthAppend(depth, [e], Flatten(rest));
    case Interrupt(entered, body, left, rest) =>
      EraseCutsSegments(body, depth + 1);
      EraseCutsSegments(rest, depth);
      EraseSegment(depth, Logged(IRQ_ENTRY, entered), Flatten(body), Logged(IRQ_EXIT, left), Flatten(rest));
  }

  // ----- what the map counts -----

  /** How often the map index x is hit by consecutive program counters of an erased log: its 16 bits tell
      where the two differ. */
  function Hits(es: seq<Entry>, x: nat): nat {
    if |es| < 2 then 0 else
      var a, b := es[|es| - 2], es[|es| - 1];
      Hits(es[..|es| - 1], x) +
      if a.Logged? && b.Logged? && a.value != 0 && Differ16(x, a.value, b.value) then 1 else 0
  }

  /** The program counter the next hit starts from: the last of the erased log, if no reset follows it. */
  function LastValue(es: seq<Entry>): word {
    if es == [] || es[|es| - 1].TraceReset? then 0 else es[|es| - 1].value
  }

  /** Appending an entry to an erased log adds the hit it makes with the last value. */
  lemma HitsAppend(es: seq<Entry>, e: Entry, x: nat)
    ensures Hits(es + [e], x) == Hits(es, x) +
            if e.Logged? && LastValue(es) != 0 && Differ16(x, LastValue(es), e.value) then 1 else 0
    ensures LastValue(es + [e]) == if e.TraceReset? then 0 else e.value
  {
    hide Differ16;
    assert (es + [e])[..|es + [e]| - 1] == es;
  }

  lemma AflStepCounts(a: Afl, depth: int, es: seq<Entry>, e: Entry, x: nat, base: nat)
    requires |a.cvg| == MAP_SIZE && x < MAP_SIZE && a.prev == LastValue(es) && a.cvg[x] == (base + Hits(es, x)) % 256
    ensures var es' := if e.TraceReset? || (IsPc(e) && depth == 0) then es + [e] else es;
            AflStep(a, depth, e).prev == LastValue(es') && AflStep(a, depth, e).cvg[x] == (base + Hits(es', x)) % 256
  {
    hide Differ16;
    HitsAppend(es, e, x);
    if e.Logged? {
      IndexIff(x, LastValue(es), e.value);
    }
  }

  lemma IndexIff(x: nat, prev: word, pc: word)
    ensures Differ16(x, prev, pc) <==> x == MapIndex(prev, pc)
  {
    Xor16Iff(x, prev, pc);
  }

  /** The map alone. */
  function FoldAfl(a: Afl, depth: int, log: seq<Entry>): (a': Afl)
    requires |a.cvg| == MAP_SIZE
    ensures |a'.cvg| == MAP_SIZE
  {
    if log == [] then a else
      var front := log[..|log| - 1];
      AflStep(FoldAfl(a, depth, front), DepthAfter(depth, front), log[|log| - 1])
  }

  lemma {:induction false} FoldHasAfl(c: Cov, log: seq<Entry>)
    requires |c.afl.cvg| == MAP_SIZE
    ensures Fold(c, log).afl == FoldAfl(c.afl, c.depth, log)
  {
    if log != [] {
      FoldHasAfl(c, log[..|log| - 1]);
      FoldDepth(c, log[..|log| - 1]);
    }
  }

  lemma EraseNothing(depth: int)
    ensures Erase(depth, []) == [] && LastValue([]) == 0 && forall x :: Hits([], x) == 0
  {
  }

  lemma {:induction false} FoldAflCounts(a: Afl, depth: int, log: seq<Entry>, x: nat)
    requires |a.cvg| == MAP_SIZE && a.prev == 0 && x < MAP_SIZE && 0 <= a.cvg[x] < 256
    ensures FoldAfl(a, depth, log).prev == LastValue(Erase(depth, log))
    ensures FoldAfl(a, depth, log).cvg[x] == (a.cvg[x] + Hits(Erase(depth, log), x)) % 256
  {
    hide AflStep, Erase, Hits, LastValue, MapIndex;
    EraseNothing(depth);
    if log != [] {
      var front, e := log[..|log| - 1], log[|log| - 1];
      FoldAflCounts(a, depth, front, x);
      AflStepCounts(FoldAfl(a, depth, front), DepthAfter(depth, front), Erase(depth, front), e, x, a.cvg[x]);
      EraseSnoc(depth, log);
    }
  }

  /** Each byte of the map counts, modulo 256, the hits of its index outside interrupts. */
  lemma MapCountsHits(c: Cov, log: seq<Entry>, x: nat)
    requires |c.afl.cvg| == MAP_SIZE && c.afl.prev == 0 && x < MAP_SIZE && 0 <= c.afl.cvg[x] < 256
    ensures Fold(c, log).afl.prev == LastValue(Erase(c.depth, log))
    ensures Fold(c, log).afl.cvg[x] == (c.afl.cvg[x] + Hits(Erase(c.depth, log), x)) % 256
  {
    FoldHasAfl(c, log);
    FoldAflCounts(c.afl, c.depth, log, x);
  }

  // ----- what the edge set holds -----

  function DepthAt(depth: int, log: seq<Entry>, i: nat): int
    requires i <= |log|
  {
    DepthAfter(depth, log[..i])
  }

  /** Consecutive program counters of the log, with no trace reset between them. */
  predicate Adjacent(log: seq<Entry>, i: nat, j: nat) {
    && i < j < |log|
    && IsPc(log[i]) && IsPc(log[j])
    && forall k | i < k < j :: !IsPc(log[k]) && !log[k].TraceReset?
  }

  /** An edge of the log: adjacent program counters, both outside interrupts. */
  predicate IsEdge(depth: int, log: seq<Entry>, i: nat, j: nat) {
    Adjacent(log, i, j) && DepthAt(depth, log, i) == 0 && DepthAt(depth, log, j) == 0
  }

  function Source(log: seq<Entry>, i: nat): word {
    if i < |log| && log[i].Logged? then Mask(log[i].value) else 0
  }

  ghost predicate HasEdge(depth: int, log: seq<Entry>, p: (word, word)) {
    exists i: nat, j: nat :: IsEdge(depth, log, i, j) && p == (Source(log, i), Source(log, j))
  }

  /** Position i holds the last program counter of the log, and no reset follows it. */
  predicate IsLastPc(log: seq<Entry>, i: nat) {
    && i < |log| && IsPc(log[i])
    && forall k | i < k < |log| :: !IsPc(log[k]) && !log[k].TraceReset?
  }

  /** What the tracer remembers is the last program counter if it was outside interrupts. */
  ghost predicate RemembersLast(depth: int, log: seq<Entry>, last: Option<word>) {
    forall p: word :: last == Some(p) <==> exists i: nat :: IsLastPc(log, i) && DepthAt(depth, log, i) == 0 && p == Source(log, i)
  }

  /** Appending anything but a program counter or a reset leaves the last program counter where it was. */
  lemma LastPcStays(depth: int, front: seq<Entry>, e: Entry, i: nat)
    requires !IsPc(e) && !e.TraceReset?
    ensures IsLastPc(front + [e], i) <==> IsLastPc(front, i)
    ensures IsLastPc(front, i) ==> DepthAt(depth, front + [e], i) == DepthAt(depth, front, i) && Source(front + [e], i) == Source(front, i)
  {
    var log := front + [e];
    assert forall k | 0 <= k < |front| :: log[k] == front[k];
    assert log[|front|] == e;
    if i < |front| {
      assert log[..i] == front[..i];
    }
  }

  lemma RememberStep(g: Edges, depth: int, front: seq<Entry>, e: Entry)
    requires RemembersLast(depth, front, g.last)
    ensures RemembersLast(depth, front + [e], EdgeStep(true, g, DepthAfter(depth, front), e).last)
  {
    var log := front + [e];
    assert log[..|front|] == front && log[|front|] == e;
    if IsPc(e) {
      assert IsLastPc(log, |front|);
      assert forall i: nat :: IsLastPc(log, i) ==> i == |front|;
    } else if e.TraceReset? {
      assert forall i: nat :: !IsLastPc(log, i);
    } else {
      forall i: nat
        ensures IsLastPc(log, i) <==> IsLastPc(front, i)
        ensures IsLastPc(front, i) ==> DepthAt(depth, log, i) == DepthAt(depth, front, i) && Source(log, i) == Source(front, i)
      {
        LastPcStays(depth, front, e, i);
      }
    }
  }

  /** The edges alone. */
  function FoldEdges(g: Edges, depth: int, log: seq<Entry>): Edges {
    if log == [] then g else
      var front := log[..|log| - 1];
      EdgeStep(true, FoldEdges(g, depth, front), DepthAfter(depth, front), log[|log| - 1])
  }

  lemma {:induction false} FoldHasEdges(c: Cov, log: seq<Entry>)
    requires |c.afl.cvg| == MAP_SIZE && c.edgesOn
    ensures Fold(c, log).edges == FoldEdges(c.edges, c.depth, log)
  {
    if log != [] {
      FoldHasEdges(c, log[..|log| - 1]);
      FoldDepth(c, log[..|log| - 1]);
    }
  }

  /** The edges that end at an appended entry start at the last program counter before it. */
  lemma EdgeIntoLast(depth: int, front: seq<Entry>, e: Entry, i: nat)
    ensures IsEdge(depth, front + [e], i, |front|) <==>
            IsPc(e) && DepthAfter(depth, front) == 0 && IsLastPc(front, i) && DepthAt(depth, front, i) == 0
    ensures i < |front| ==> Source(front + [e], i) == Source(front, i)
  {
    var log := front + [e];
    assert log[..|front|] == front;
    if i < |front| {
      assert log[..i] == front[..i];
      assert forall k | 0 <= k < |front| :: log[k] == front[k];
    }
  }

  /** Appending an entry adds the edge from the remembered program counter, and no other. */
  lemma EdgeOfLastEntry(g: Edges, depth: int, front: seq<Entry>, e: Entry, p: (word, word))
    requires RemembersLast(depth, front, g.last)
    ensures HasEdge(depth, front + [e], p) <==>
            HasEdge(depth, front, p) ||
            (IsPc(e) && DepthAfter(depth, front) == 0 && g.last.Some? && p == (g.last.value, Mask(e.value)))
  {
    var log := front + [e];
    if HasEdge(depth, log, p) {
      var i: nat, j: nat :| IsEdge(depth, log, i, j) && p == (Source(log, i), Source(log, j));
      if j < |front| {
        PrefixKeepsEdges(depth, front, e, i, j);
      } else {
        EdgeIntoLast(depth, front, e, i);
        assert g.last == Some(Source(front, i));
      }
    }
    if HasEdge(depth, front, p) {
      var i: nat, j: nat :| IsEdge(depth, front, i, j) && p == (Source(front, i), Source(front, j));
      PrefixKeepsEdges(depth, front, e, i, j);
      assert IsEdge(depth, log, i, j);
    }
    if IsPc(e) && DepthAfter(depth, front) == 0 && g.last.Some? && p == (g.last.value, Mask(e.value)) {
      assert g.last == Some(p.0);
      var i: nat :| IsLastPc(front, i) && DepthAt(depth, front, i) == 0 && p.0 == Source(front, i);
      EdgeIntoLast(depth, front, e, i);
      assert IsEdge(depth, log, i, |front|);
    }
  }

  lemma PrefixKeepsEdges(depth: int, front: seq<Entry>, e: Entry, i: nat, j: nat)
    requires j < |front|
    ensures IsEdge(depth, front + [e], i, j) <==> IsEdge(depth, front, i, j)
    ensures IsEdge(depth, front, i, j) ==> Source(front + [e], i) == Source(front, i) && Source(front + [e], j) == Source(front, j)
  {
    var log := front + [e];
    assert forall k | 0 <= k < |front| :: log[k] == front[k];
    assert log[..j] == front[..j];
    if i < j {
      assert log[..i] == front[..i];
    }
  }

  lemma {:induction false} FoldEdgesHolds(g: Edges, depth: int, log: seq<Entry>)
    requires g.last.None?
    ensures RemembersLast(depth, log, FoldEdges(g, depth, log).last)
    ensures forall p :: p in FoldEdges(g, depth, log).pairs <==> p in g.pairs || HasEdge(depth, log, p)
  {
    if log != [] {
      var front, e := log[..|log| - 1], log[|log| - 1];
      assert log == front + [e];
      FoldEdgesHolds(g, depth, front);
      var before := FoldEdges(g, depth, front);
      RememberStep(before, depth, front, e);
      forall p
        ensures p in EdgeStep(true, before, DepthAfter(depth, front), e).pairs <==> p in g.pairs || HasEdge(depth, log, p)
      {
        EdgeOfLastEntry(before, depth, front, e, p);
      }
    }
  }

  /**
   * With edge coverage on, starting after a reset, the edge set is the initial edges and the masked
   * pairs of adjacent program counters of the log that are both outside interrupts: nothing else.
   */
  lemma EdgesAreAdjacentPairs(c: Cov, log: seq<Entry>, p: (word, word))
    requires |c.afl.cvg| == MAP_SIZE && c.edgesOn && c.edges.last.None?
    ensures p in Fold(c, log).edges.pairs <==> p in c.edges.pairs || HasEdge(c.depth, log, p)
  {
    FoldHasEdges(c, log);
    FoldEdgesHolds(c.edges, c.depth, log);
  }
}
