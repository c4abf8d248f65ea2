// The coverage globals as the tracer thread updates them (virtuals/fuzzer/fuzz.c, cov_bbl.c): the
// map and the block queue are arrays, the hash tables are maps, the two dump files are text.
// `model` is the state of module Coverage that each method advances.
module CoverageTracker {
  import opened Bits
  import opened CInts
  import opened Options
  import opened Text
  import opened Coverage
  import opened BlockLog

  function Pairs(edges: map<word, set<word>>): set<(word, word)> {
    set src, dst | src in edges && dst in edges[src] :: (src, dst)
  }

  /** The part of Observe done by fuzz_bbl_add, at the state's own interrupt depth. */
  ghost function BlockAdded(c: Cov, e: Entry): Cov
    requires IsPc(e)
  {
    var d := c.(edges := EdgeStep(c.edgesOn, c.edges, c.depth, e));
    if Enqueues(c.blocks, c.depth, e) then
      var d := d.(blocks := Enqueue(c.blocks, Mask(e.value), e.now));
      if |d.blocks.queue| >= QUEUE_MAX then Dump(d) else d
    else d
  }

  /** A marker changes the interrupt depth and nothing else. */
  lemma MarkerMovesDepth(c: Cov, e: Entry)
    requires |c.afl.cvg| == MAP_SIZE
    ensures e.Logged? && IsMarker(e.value) ==> Observe(c, e) == c.(depth := DepthStep(c.depth, e))
  {
  }

  /** One program counter outside interrupts counts up the one byte whose index bits tell where it differs
      from the last. */
  lemma MapBytesCount(a: Afl, depth: int, pc: word, now: word)
    requires |a.cvg| == MAP_SIZE && !IsMarker(pc)
    ensures var a' := AflStep(a, depth, Logged(pc, now));
            && a'.prev == (if depth == 0 then pc else a.prev)
            && forall x | 0 <= x < MAP_SIZE :: a'.cvg[x] ==
                 if depth == 0 && a.prev != 0 && Differ16(x, a.prev, pc) then (a.cvg[x] + 1) % 256 else a.cvg[x]
  {
    hide Differ16, MapIndex;
    forall x: nat | x < MAP_SIZE ensures Differ16(x, a.prev, pc) <==> x == MapIndex(a.prev, pc) {
      IndexIff(x, a.prev, pc);
    }
  }

  /** The text read as the file holds its lines: those the base converts to, then those printed since. */
  ghost predicate TextHolds(base: string, text: string, file: seq<Line>) {
    ReadLines(base) <= file && text == base + PrintLines(file[|ReadLines(base)|..])
  }

  lemma TextHoldsMore(base: string, text: string, file: seq<Line>, more: seq<Line>)
    requires TextHolds(base, text, file)
    ensures TextHolds(base, text + PrintLines(more), file + more)
  {
    hide ReadLines, PrintLines;
    var n := |ReadLines(base)|;
    PrintLinesAppend(file[n..], more);
    assert (file + more)[n..] == file[n..] + more;
  }

  lemma TextHoldsAtFirst(base: string)
    ensures TextHolds(base, base, ReadLines(base))
  {
    var lines := ReadLines(base);
    assert lines[|lines|..] == [] && base + "" == base;
  }

  class Tracker {
    const edgesOn: bool
    const cvg: array<int>
    const queue: array<Block>
    var irqDepth: int
    var prevPc: word
    var bblSet: map<word, word>
    var bblSize: map<word, word>
    var edgeSet: map<word, set<word>>
    var lastPc: word
    var haveLast: bool
    var queueLen: nat
    var bblText: string
    var edgeText: string
    ghost var base: string      // what bbl.txt held when the process began
    ghost var model: Cov

    /** The fields hold the model; the queue may be full in the middle of an operation. */
    ghost predicate Holds()
      reads this, cvg, queue
    {
      && cvg.Length == MAP_SIZE
      && queue.Length == QUEUE_MAX
      && queueLen <= QUEUE_MAX
      && model.edgesOn == edgesOn
      && model.depth == irqDepth
      && model.afl == Afl(prevPc, cvg[..])
      && model.edges == Edges(if haveLast then Some(lastPc) else None, Pairs(edgeSet))
      && model.blocks.known == bblSet
      && model.blocks.sizes == bblSize
      && model.blocks.queue == queue[..queueLen]
      && TextHolds(base, bblText, model.blocks.file)
      && ReadEdges(edgeText) == model.edgeFile
    }

    ghost predicate Valid()
      reads this, cvg, queue
    {
      Holds() && queueLen < QUEUE_MAX
    }

    /** fuzz_bbl_add_edge: the destination joins the set of its source. */
    method AddEdge(src: word, dst: word)
      modifies this`edgeSet
      ensures Pairs(edgeSet) == Pairs(old(edgeSet)) + {(src, dst)}
    {
      var destinations := if src in edgeSet then edgeSet[src] else {};
      edgeSet := edgeSet[src := destinations + {dst}];
      PairsAfterInsert(old(edgeSet), src, dst);
    }

    static lemma PairsAfterInsert(m: map<word, set<word>>, src: word, dst: word)
      ensures Pairs(m[src := (if src in m then m[src] else {}) + {dst}]) == Pairs(m) + {(src, dst)}
    {
      var m' := m[src := (if src in m then m[src] else {}) + {dst}];
      assert dst in m'[src];
      forall s, d | s in m && d in m[s]
        ensures (s, d) in Pairs(m')
      {
        assert d in m'[s];
      }
    }

    /** fuzz_dump_edges: every row of the hash table, in whatever order the table iterates. */
    method DumpEdges()
      requires edgesOn
      modifies this`edgeText
      ensures ReadEdges(edgeText) == Pairs(edgeSet)
    {
      var text := "";
      ghost var printed: seq<(word, word)> := [];
      var sources := edgeSet.Keys;
      while sources != {}
        invariant sources <= edgeSet.Keys
        invariant text == PrintEdges(printed)
        invariant forall p :: p in printed <==> p in Pairs(edgeSet) && p.0 !in sources
        decreases |sources|
      {
        var src :| src in sources;
        sources := sources - {src};
        var destinations := edgeSet[src];
        while destinations != {}
          invariant destinations <= edgeSet[src]
          invariant text == PrintEdges(printed)
          invariant forall p :: p in printed <==>
                      p in Pairs(edgeSet) && p.0 !in sources && (p.0 == src ==> p.1 !in destinations)
          decreases |destinations|
        {
          var dst :| dst in destinations;
          destinations := destinations - {dst};
          text := text + PrintEdge((src, dst));
          PrintEdgesAppend(printed, (src, dst));
          printed := printed + [(src, dst)];
        }
      }
      edgeText := text;
      EdgeFileReadsBack(printed);
    }

    /** The lines of the queue, each with the instruction count noted at translation. */
    method QueueText() returns (text: string)
      requires queue.Length == QUEUE_MAX && queueLen <= QUEUE_MAX
      ensures text == PrintLines(LinesOf(queue[..queueLen], bblSize))
    {
      text := "";
      ghost var lines := LinesOf(queue[..queueLen], bblSize);
      for i := 0 to queueLen
        invariant text == PrintLines(lines[..i])
      {
        var insns := if queue[i].pc in bblSize then bblSize[queue[i].pc] else 0;
        var line := Line(queue[i].pc, insns, queue[i].stamp);
        assert line == lines[i];
        text := text + PrintLine(line);
        PrintLinesSnoc(lines, i);
      }
      assert lines[..queueLen] == lines;
    }

    /** fuzz_dump_bbl: the queue goes to the file, then the edges. */
    method DumpBbl()
      requires Holds()
      modifies this`bblText, this`queueLen, this`edgeText, this`model
      ensures Valid() && model == Dump(old(model))
      ensures queueLen == 0 && bblText == old(bblText) + PrintLines(LinesOf(queue[..old(queueLen)], bblSize))
      ensures if edgesOn then ReadEdges(edgeText) == Pairs(edgeSet) else edgeText == old(edgeText)
    {
      hide PrintLines, PrintEdges, ReadEdges, ReadLines, TextHolds;
      var text := QueueText();
      TextHoldsMore(base, bblText, model.blocks.file, LinesOf(model.blocks.queue, bblSize));
      bblText := bblText + text;
      queueLen := 0;
      model := Dump(model);
      if edgesOn {
        DumpEdges();
      }
      assert queue[..queueLen] == [];
    }

    /** The first half of fuzz_bbl_add: the edge from the last block seen outside interrupts. */
    method NoteEdge(bblPc: word, ghost e: Entry)
      requires Holds() && IsPc(e) && bblPc == Mask(e.value)
      modifies this`lastPc, this`haveLast, this`edgeSet, this`model
      ensures Holds() && model == old(model).(edges := EdgeStep(edgesOn, old(model.edges), irqDepth, e))
    {
      hide TextHolds, ReadEdges, Pairs, Mask, IsMarker;
      if edgesOn {
        if irqDepth != 0 {
          lastPc, haveLast := 0, false;
        } else {
          if haveLast {
            AddEdge(lastPc, bblPc);
          }
          lastPc, haveLast := bblPc, true;
        }
      }
      model := model.(edges := EdgeStep(edgesOn, model.edges, irqDepth, e));
    }

    /** The second half: a block that is not known is enqueued. */
    method EnqueueBlock(bblPc: word, now: word)
      requires Valid()
      modifies this`bblSet, this`queueLen, this`model, queue
      ensures Holds()
      ensures model == old(model).(blocks := Enqueue(old(model.blocks), bblPc, now))
    {
      hide TextHolds, ReadEdges, Pairs;
      bblSet := bblSet[bblPc := now];
      queue[queueLen] := Block(bblPc, now);
      queueLen := queueLen + 1;
      assert queue[..queueLen] == old(queue[..queueLen]) + [Block(bblPc, now)];
      model := model.(blocks := Enqueue(model.blocks, bblPc, now));
    }

    /** fuzz_bbl_add. */
    method BblAdd(pc: word, now: word)
      requires Valid() && !IsMarker(pc)
      modifies this, queue
      ensures Valid() && model == BlockAdded(old(model), Logged(pc, now))
      ensures unchanged(`prevPc) && unchanged(`irqDepth)
    {
      hide TextHolds, ReadEdges, Pairs, EdgeStep, Mask, IsMarker, Enqueue, Dump;
      var bblPc := Mask(pc);
      NoteEdge(bblPc, Logged(pc, now));
      if irqDepth == 0 && (bblPc !in bblSet || bblSet[bblPc] == 0) {
        EnqueueBlock(bblPc, now);
        if queueLen >= QUEUE_MAX {
          DumpBbl();
        }
      }
    }

    /** The map's part of a program counter. */
    method CountHit(val: word, now: word)
      requires Valid() && !IsMarker(val)
      modifies this`prevPc, this`model, cvg
      ensures Valid() && model == old(model).(afl := AflStep(old(model.afl), irqDepth, Logged(val, now)))
    {
      hide TextHolds, ReadEdges, Pairs, MapIndex, IsMarker;
      if irqDepth == 0 {
        if prevPc != 0 {
          var idx := MapIndex(prevPc, val);
          cvg[idx] := (cvg[idx] + 1) % 256;
        }
        prevPc := val;
      }
      model := model.(afl := AflStep(model.afl, model.depth, Logged(val, now)));
    }

    /** fuzz_add_observed_value: a marker moves the interrupt depth; a program counter outside interrupts
        counts one transition in the byte whose 16 index bits tell where it differs from the last one. */
    method AddObservedValue(val: word, now: word)
      requires Valid()
      modifies this, queue, cvg
      ensures Valid() && model == Observe(old(model), Logged(val, now))
      ensures irqDepth == old(irqDepth) + if val == 0xFFFFFFFD then 1 else if val == 0xFFFFFFFB then -1 else 0
      ensures var outside := val != 0xFFFFFFFD && val != 0xFFFFFFFB && old(irqDepth) == 0;
              && prevPc == (if outside then val else old(prevPc))
              && forall x | 0 <= x < MAP_SIZE :: cvg[x] ==
                   if outside && old(prevPc) != 0 && Differ16(x, old(prevPc), val)
                   then (old(cvg[x]) + 1) % 256 else old(cvg[x])
    {
      hide TextHolds, ReadEdges, Pairs, MapIndex, EdgeStep, Enqueue, Dump, Differ16;
      MarkerMovesDepth(model, Logged(val, now));
      if val == IRQ_ENTRY {
        irqDepth := irqDepth + 1;
        model := model.(depth := irqDepth);
      } else if val == IRQ_EXIT {
        irqDepth := irqDepth - 1;
        model := model.(depth := irqDepth);
      } else {
        MapBytesCount(model.afl, irqDepth, val, now);
        CountHit(val, now);
        BblAdd(val, now);
      }
    }

    /** The resets of fuzz_sync_coverage, after the drain. */
    method ResetTrace()
      requires Valid()
      modifies this
      ensures Valid() && model == Observe(old(model), TraceReset)
    {
      hide TextHolds, ReadEdges, Pairs, MapIndex;
      prevPc := 0;
      haveLast := false;
      lastPc := 0;
      model := Observe(model, TraceReset);
    }

    /** The snapshot point, reached for the first time. */
    method SnapPointReached()
      requires Valid()
      modifies this`irqDepth, this`prevPc, this`model, cvg
      ensures Valid() && model == Advance(old(model), SnapPoint)
    {
      hide PrintLines, PrintEdges, ReadEdges, ReadLines, TextHolds;
      for i := 0 to cvg.Length
        invariant model == old(model) && forall k | 0 <= k < i :: cvg[k] == 0
      {
        cvg[i] := 0;
      }
      irqDepth, prevPc := 0, 0;
      assert cvg[..] == seq(MAP_SIZE, _ => 0);
      model := Advance(model, SnapPoint);
    }

    /** fuzz_bbl_observe, at translation. */
    method BblObserve(pc: word, size: word)
      requires Valid()
      modifies this
      ensures Valid() && model == Advance(old(model), Translated(pc, size))
    {
      hide TextHolds, ReadEdges, Pairs, Mask;
      bblSize := bblSize[Mask(pc) := size];
      model := Advance(model, Translated(pc, size));
    }

    /** fuzz_bbl_init over the files an earlier process left. */
    constructor (edgesOn: bool, bblText: string, edgeText: string)
      ensures Valid() && fresh(cvg) && fresh(queue) && base == bblText
      ensures model == Restart(Cov(edgesOn, 0, Afl(0, []), Edges(None, {}),
                                   Blocks(map[], map[], [], ReadLines(bblText)), ReadEdges(edgeText)))
    {
      ghost var lines := ReadLines(bblText);
      hide PrintLines, PrintEdges, ReadEdges, ReloadKnown, ReloadSizes, ReadLines, TextHolds;
      TextHoldsAtFirst(bblText);
      this.edgesOn := edgesOn;
      cvg := new int[MAP_SIZE](_ => 0);
      queue := new Block[QUEUE_MAX](_ => Block(0, 0));
      irqDepth, prevPc, queueLen := 0, 0, 0;
      lastPc, haveLast := 0, false;
      bblSet, bblSize, edgeSet := map[], map[], map[];
      this.bblText, this.edgeText, base := bblText, edgeText, bblText;
      new;
      ReloadBlocks();
      assert Pairs(edgeSet) == {};
      if edgesOn {
        ReloadEdges();
      }
      model := Restart(Cov(edgesOn, 0, Afl(0, []), Edges(None, {}), Blocks(map[], map[], [], lines), ReadEdges(edgeText)));
      assert cvg[..] == seq(MAP_SIZE, _ => 0);
      assert queue[..0] == [];
    }

    /** Every line of bbl.txt that converts is inserted into both tables. */
    method ReloadBlocks()
      requires bblSet == map[] && bblSize == map[]
      modifies this`bblSet, this`bblSize
      ensures bblSet == ReloadKnown(ReadLines(bblText)) && bblSize == ReloadSizes(ReadLines(bblText))
    {
      hide PrintLines, ScanHex, ScanDec;
      ghost var lines := ReadLines(bblText);
      var rest := bblText;
      ghost var n := 0;
      assert lines[..0] == [] && lines[0..] == lines;
      while true
        invariant n <= |lines|
        invariant ReadLines(rest) == lines[n..]
        invariant bblSet == ReloadKnown(lines[..n]) && bblSize == ReloadSizes(lines[..n])
        decreases |rest|
      {
        var pc := ScanHex(rest);
        if pc.NoMatch? { break; }
        var insns := ScanDec(pc.rest);
        if insns.NoMatch? { break; }
        var stamp := ScanDec(insns.rest);
        if stamp.NoMatch? { break; }
        var line := Line(pc.value % U32, insns.value % U32, stamp.value % U32);
        assert line == lines[n] && lines[..n + 1][..n] == lines[..n];
        assert lines[n..][1..] == lines[n + 1..];
        bblSet := bblSet[line.pc := line.stamp];
        bblSize := bblSize[line.pc := line.insns];
        rest := stamp.rest;
        n := n + 1;
      }
      assert lines[..n] == lines;
    }

    method ReloadEdges()
      modifies this`edgeSet
      ensures Pairs(edgeSet) == Pairs(old(edgeSet)) + ReadEdges(edgeText)
    {
      var rest := edgeText;
      while true
        invariant Pairs(edgeSet) + ReadEdges(rest) == Pairs(old(edgeSet)) + ReadEdges(edgeText)
        decreases |rest|
      {
        var src := ScanHex(rest);
        if src.NoMatch? { break; }
        var dst := ScanHex(src.rest);
        if dst.NoMatch? { break; }
        AddEdge(src.value % U32, dst.value % U32);
        rest := dst.rest;
      }
    }
  }

  lemma PrintLinesSnoc(lines: seq<Line>, i: nat)
    requires i < |lines|
    ensures PrintLines(lines[..i + 1]) == PrintLines(lines[..i]) + PrintLine(lines[i])
  {
    assert lines[..i + 1] == lines[..i] + [lines[i]];
    PrintLinesAppend(lines[..i], [lines[i]]);
    assert [lines[i]][1..] == [];
    assert PrintLines([lines[i]]) == PrintLine(lines[i]) + PrintLines([]);
  }

  lemma {:induction false} PrintEdgesAppend(ps: seq<(word, word)>, p: (word, word))
    ensures PrintEdges(ps + [p]) == PrintEdges(ps) + PrintEdge(p)
  {
    if ps == [] {
      assert [p][1..] == [];
      assert ps + [p] == [p];
    } else {
      assert (ps + [p])[1..] == ps[1..] + [p];
      PrintEdgesAppend(ps[1..], p);
    }
  }
}
