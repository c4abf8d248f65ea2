// The log of novel basic blocks over any number of runs (virtuals/fuzzer/cov_bbl.c): what is in
// bbl.txt and in the queue, what a fresh process reloads, and the text form of both files.
module BlockLog {
  import opened CInts
  import opened Options
  import opened Text
  import opened Coverage

  // ----- conservation -----

  function EntryOf(l: Line): Block {
    Block(l.pc, l.stamp)
  }

  /** Everything logged and not lost: the file, then the queue. */
  function Logged(b: Blocks): (s: seq<Block>)
    ensures |s| == |b.file| + |b.queue|
  {
    seq(|b.file|, i requires 0 <= i < |b.file| => EntryOf(b.file[i])) + b.queue
  }

  predicate Lists(s: seq<Block>, pc: word) {
    exists i :: 0 <= i < |s| && s[i].pc == pc
  }

  predicate Distinct(s: seq<Block>) {
    forall i, j | 0 <= i < j < |s| :: s[i].pc != s[j].pc
  }

  /** No block is logged twice, and the known blocks are exactly the logged ones, with their stamps. */
  ghost predicate Conserved(b: Blocks) {
    && |b.queue| < QUEUE_MAX
    && Distinct(Logged(b))
    && (forall i | 0 <= i < |Logged(b)| ::
          Logged(b)[i].pc in b.known && b.known[Logged(b)[i].pc] == Logged(b)[i].stamp != 0)
    && (forall pc | pc in b.known :: Lists(Logged(b), pc))
  }

  lemma FlushKeepsLogged(b: Blocks)
    ensures Logged(FlushBlocks(b)) == Logged(b)
  {
  }

  /** An enqueued block goes to the end of the log; anything else leaves the log alone. */
  lemma ObserveLogs(c: Cov, e: Entry)
    requires |c.afl.cvg| == MAP_SIZE && |c.blocks.queue| < QUEUE_MAX
    ensures var b := Observe(c, e).blocks;
            && |b.queue| < QUEUE_MAX
            && b.sizes == c.blocks.sizes
            && (if Enqueues(c.blocks, c.depth, e)
                then Logged(b) == Logged(c.blocks) + [Block(Mask(e.value), e.now)] && b.known == c.blocks.known[Mask(e.value) := e.now]
                else b == c.blocks)
  {
    if Enqueues(c.blocks, c.depth, e) {
      var q := Enqueue(c.blocks, Mask(e.value), e.now);
      assert Logged(q) == Logged(c.blocks) + [Block(Mask(e.value), e.now)];
      FlushKeepsLogged(q);
    }
  }

  lemma ObserveKeepsConserved(c: Cov, e: Entry)
    requires |c.afl.cvg| == MAP_SIZE && Conserved(c.blocks)
    requires e.Logged? ==> e.now != 0
    ensures Conserved(Observe(c, e).blocks)
  {
    ObserveLogs(c, e);
    if Enqueues(c.blocks, c.depth, e) {
      var old_, b := Logged(c.blocks), Observe(c, e).blocks;
      var pc := Mask(e.value);
      assert Logged(b) == old_ + [Block(pc, e.now)];
      assert !Lists(old_, pc);
      forall p | p in b.known
        ensures Lists(Logged(b), p)
      {
        if p == pc {
          assert Logged(b)[|old_|].pc == p;
        } else {
          assert Lists(old_, p);
          var i :| 0 <= i < |old_| && old_[i].pc == p;
          assert Logged(b)[i].pc == p;
        }
      }
    }
  }

  /**
   * Adding a program counter outside interrupts to a conserved log keeps every block logged once
   * exactly when the block is not known, or its stored timestamp is not zero.
   */
  lemma AddStaysDistinctIff(b: Blocks, pc: word, now: word)
    requires Distinct(Logged(b)) && |b.queue| < QUEUE_MAX
    requires forall p | p in b.known :: Lists(Logged(b), p)
    requires forall i | 0 <= i < |Logged(b)| :: Logged(b)[i].pc in b.known
    ensures var b' := if Novel(b.known, pc) then Enqueue(b, pc, now) else b;
            Distinct(Logged(b')) <==> pc !in b.known || b.known[pc] != 0
  {
    if Novel(b.known, pc) {
      var b' := Enqueue(b, pc, now);
      assert Logged(b') == Logged(b) + [Block(pc, now)];
      if pc in b.known {
        var i :| 0 <= i < |Logged(b)| && Logged(b)[i].pc == pc;
        assert Logged(b')[i].pc == Logged(b')[|Logged(b)|].pc;
      }
    }
  }

  /** One block seen twice while the clock reads zero is logged twice. */
  lemma ZeroStampDuplicates()
    ensures var b := Blocks(map[], map[], [], []);
            var b1 := Enqueue(b, 0x8000, 0);
            Novel(b.known, 0x8000) && Novel(b1.known, 0x8000) && !Distinct(Logged(Enqueue(b1, 0x8000, 7)))
  {
    var b := Blocks(map[], map[], [], []);
    var b2 := Enqueue(Enqueue(b, 0x8000, 0), 0x8000, 7);
    assert Logged(b2)[0].pc == Logged(b2)[1].pc;
  }

  /** The blocks entered outside interrupts, in order. */
  function OuterBlocks(depth: int, log: seq<Entry>): seq<word> {
    if log == [] then [] else
      var front, e := log[..|log| - 1], log[|log| - 1];
      if IsPc(e) && DepthAfter(depth, front) == 0 then OuterBlocks(depth, front) + [Mask(e.value)] else OuterBlocks(depth, front)
  }

  /** The blocks of pcs that are not among the known ones, each at its first occurrence. */
  function FirstSeen(pcs: seq<word>, known: set<word>): seq<word> {
    if pcs == [] then [] else
      var before, pc := FirstSeen(pcs[..|pcs| - 1], known), pcs[|pcs| - 1];
      if pc in known || pc in before then before else before + [pc]
  }

  function PcsOf(s: seq<Block>): (r: seq<word>)
    ensures |r| == |s|
  {
    seq(|s|, i requires 0 <= i < |s| => s[i].pc)
  }

  /** One step logs its block exactly when it is outside interrupts and not known. */
  lemma ObserveLogsNew(c: Cov, e: Entry)
    requires |c.afl.cvg| == MAP_SIZE && Conserved(c.blocks)
    ensures var b := Observe(c, e).blocks;
            if IsPc(e) && c.depth == 0 && Mask(e.value) !in c.blocks.known
            then PcsOf(Logged(b)) == PcsOf(Logged(c.blocks)) + [Mask(e.value)] && b.known.Keys == c.blocks.known.Keys + {Mask(e.value)}
            else PcsOf(Logged(b)) == PcsOf(Logged(c.blocks)) && b.known == c.blocks.known
  {
    ObserveLogs(c, e);
    if IsPc(e) && c.depth == 0 {
      KnownStampIsNotZero(c.blocks, Mask(e.value));
      if Enqueues(c.blocks, c.depth, e) {
        PcsAppend(Logged(c.blocks), Block(Mask(e.value), e.now));
      }
    }
  }

  lemma NothingSeen(known: set<word>)
    ensures FirstSeen([], known) == []
  {
  }

  lemma FirstSeenAppend(pcs: seq<word>, pc: word, known: set<word>)
    ensures FirstSeen(pcs + [pc], known) ==
            if pc in known || pc in FirstSeen(pcs, known) then FirstSeen(pcs, known) else FirstSeen(pcs, known) + [pc]
  {
    assert (pcs + [pc])[..|pcs + [pc]| - 1] == pcs;
  }

  /** One run appends to the log exactly its new blocks in first-seen order. */
  lemma {:induction false} RunLogsFirstSeen(c: Cov, log: seq<Entry>)
    requires |c.afl.cvg| == MAP_SIZE && Conserved(c.blocks)
    requires forall e | e in log :: e.Logged? ==> e.now != 0
    ensures var b := Fold(c, log).blocks;
            var added := FirstSeen(OuterBlocks(c.depth, log), c.blocks.known.Keys);
            && Conserved(b)
            && PcsOf(Logged(b)) == PcsOf(Logged(c.blocks)) + added
            && b.known.Keys == c.blocks.known.Keys + set pc | pc in added
  {
    hide Observe, Conserved, FirstSeen, Logged, PcsOf;
    if log == [] {
      NothingSeen(c.blocks.known.Keys);
      assert PcsOf(Logged(c.blocks)) + [] == PcsOf(Logged(c.blocks));
    } else {
      var front, e := log[..|log| - 1], log[|log| - 1];
      RunLogsFirstSeen(c, front);
      FoldDepth(c, front);
      var before := Fold(c, front);
      ObserveKeepsConserved(before, e);
      ObserveLogsNew(before, e);
      if IsPc(e) && before.depth == 0 {
        FirstSeenAppend(OuterBlocks(c.depth, front), Mask(e.value), c.blocks.known.Keys);
      }
    }
  }

  lemma PcsAppend(s: seq<Block>, b: Block)
    ensures PcsOf(s + [b]) == PcsOf(s) + [b.pc]
  {
  }

  /** In a conserved log the lookup is right: a block counts as novel exactly when it is not known. */
  lemma KnownStampIsNotZero(b: Blocks, pc: word)
    requires Conserved(b)
    ensures Novel(b.known, pc) <==> pc !in b.known
  {
    if pc in b.known {
      var i :| 0 <= i < |Logged(b)| && Logged(b)[i].pc == pc;
    }
  }

  // ----- reloading -----

  /** Each line read from bbl.txt overwrites what an earlier line said. */
  function ReloadKnown(file: seq<Line>): map<word, word> {
    if file == [] then map[] else ReloadKnown(file[..|file| - 1])[file[|file| - 1].pc := file[|file| - 1].stamp]
  }

  function ReloadSizes(file: seq<Line>): map<word, word> {
    if file == [] then map[] else ReloadSizes(file[..|file| - 1])[file[|file| - 1].pc := file[|file| - 1].insns]
  }

  /** A fresh process over the files the last one left: its queue and its runtime state are gone. */
  function Restart(c: Cov): (c': Cov)
    ensures |c'.afl.cvg| == MAP_SIZE
  {
    Cov(c.edgesOn, 0, Afl(0, seq(MAP_SIZE, _ => 0)), Edges(None, if c.edgesOn then c.edgeFile else {}),
        Blocks(ReloadKnown(c.blocks.file), ReloadSizes(c.blocks.file), [], c.blocks.file), c.edgeFile)
  }

  lemma {:induction false} ReloadKnowsFile(file: seq<Line>)
    ensures forall pc :: pc in ReloadKnown(file) <==> exists i :: 0 <= i < |file| && file[i].pc == pc
    ensures (forall i, j | 0 <= i < j < |file| :: file[i].pc != file[j].pc) ==>
              forall i | 0 <= i < |file| :: file[i].pc in ReloadKnown(file) && ReloadKnown(file)[file[i].pc] == file[i].stamp
  {
    if file != [] {
      var front, last := file[..|file| - 1], file[|file| - 1];
      ReloadKnowsFile(front);
      assert forall i | 0 <= i < |front| :: front[i] == file[i];
      forall pc
        ensures pc in ReloadKnown(file) <==> exists i :: 0 <= i < |file| && file[i].pc == pc
      {
        if pc == last.pc {
          assert file[|file| - 1].pc == pc;
        } else if pc in ReloadKnown(front) {
          var i :| 0 <= i < |front| && front[i].pc == pc;
          assert file[i].pc == pc;
        }
      }
    }
  }

  /** Of several lines for one block the last one read counts, for its stamp and for its size. */
  lemma {:induction false} ReloadTakesLastLine(file: seq<Line>, i: nat)
    requires i < |file| && forall j | i < j < |file| :: file[j].pc != file[i].pc
    ensures ReloadKnown(file).Keys == ReloadSizes(file).Keys == set l | l in file :: l.pc
    ensures ReloadKnown(file)[file[i].pc] == file[i].stamp && ReloadSizes(file)[file[i].pc] == file[i].insns
  {
    ReloadedKeys(file);
    var front := file[..|file| - 1];
    if i < |front| {
      ReloadTakesLastLine(front, i);
      assert front[i] in front;
      ReloadedKeys(front);
    }
  }

  lemma {:induction false} ReloadedKeys(file: seq<Line>)
    ensures ReloadKnown(file).Keys == ReloadSizes(file).Keys == set l | l in file :: l.pc
  {
    if file != [] {
      var front, last := file[..|file| - 1], file[|file| - 1];
      ReloadedKeys(front);
      assert file == front + [last];
    }
  }

  lemma RestartKeepsConserved(c: Cov)
    requires Conserved(c.blocks)
    ensures Conserved(Restart(c).blocks)
  {
    var file := c.blocks.file;
    var b := Restart(c).blocks;
    ReloadKnowsFile(file);
    var whole := Logged(c.blocks);
    assert forall i | 0 <= i < |file| :: whole[i] == EntryOf(file[i]) && Logged(b)[i] == EntryOf(file[i]);
    forall pc | pc in b.known
      ensures Lists(Logged(b), pc)
    {
      var i :| 0 <= i < |file| && file[i].pc == pc;
      assert Logged(b)[i].pc == pc;
    }
  }

  lemma FlushKeepsConserved(b: Blocks)
    requires Conserved(b)
    ensures Conserved(FlushBlocks(b))
  {
    FlushKeepsLogged(b);
  }

  /** Once everything is in the file, the file alone determines the known blocks. */
  lemma FlushedFileDetermines(b: Blocks)
    requires Conserved(b) && b.queue == []
    ensures ReloadKnown(b.file) == b.known
  {
    hide ReloadKnown;
    ReloadKnowsFile(b.file);
    FlushedFileLists(b);
    hide Conserved;
    forall pc
      ensures pc in ReloadKnown(b.file) <==> pc in b.known
      ensures pc in b.known ==> ReloadKnown(b.file)[pc] == b.known[pc]
    {
      if pc in b.known {
        var i :| 0 <= i < |b.file| && b.file[i].pc == pc;
        assert b.file[i].stamp == b.known[pc];
      }
    }
  }

  /** What a conserved log says of a file that holds all of it. */
  lemma FlushedFileLists(b: Blocks)
    requires Conserved(b) && b.queue == []
    ensures forall i, j | 0 <= i < j < |b.file| :: b.file[i].pc != b.file[j].pc
    ensures forall i | 0 <= i < |b.file| :: b.file[i].pc in b.known && b.known[b.file[i].pc] == b.file[i].stamp
    ensures forall pc | pc in b.known :: exists i :: 0 <= i < |b.file| && b.file[i].pc == pc
  {
    var log := Logged(b);
    assert |log| == |b.file| && forall i | 0 <= i < |b.file| :: log[i] == EntryOf(b.file[i]);
    hide Logged;
    forall pc | pc in b.known ensures exists i :: 0 <= i < |b.file| && b.file[i].pc == pc {
      assert Lists(log, pc);
      var i :| 0 <= i < |log| && log[i].pc == pc;
      assert b.file[i].pc == pc;
    }
  }

  /** Dumping and starting again rebuilds the same known blocks with the same stamps, and the same edges. */
  lemma DumpThenRestart(c: Cov)
    requires Conserved(c.blocks)
    ensures Restart(Dump(c)).blocks.known == c.blocks.known
    ensures Logged(Restart(Dump(c)).blocks) == Logged(c.blocks)
    ensures c.edgesOn ==> Restart(Dump(c)).edges.pairs == c.edges.pairs
  {
    FlushKeepsConserved(c.blocks);
    FlushKeepsLogged(c.blocks);
    FlushedFileDetermines(FlushBlocks(c.blocks));
  }

  // ----- any number of runs -----

  datatype RunEvent = Traced(e: Entry) | Translated(pc: word, size: word) | SnapPoint | DumpNow | NewProcess

  function Advance(c: Cov, ev: RunEvent): (c': Cov)
    requires |c.afl.cvg| == MAP_SIZE
    ensures |c'.afl.cvg| == MAP_SIZE
  {
    match ev
    case Traced(e) => Observe(c, e)
    case Translated(pc, size) => c.(blocks := c.blocks.(sizes := c.blocks.sizes[Mask(pc) := size]))
    // the snapshot point puts the interrupt depth right and clears the map, once per process
    case SnapPoint => c.(depth := 0, afl := Afl(0, seq(MAP_SIZE, _ => 0)))
    case DumpNow => Dump(c)
    case NewProcess => Restart(c)
  }

  function Runs(c: Cov, evs: seq<RunEvent>): (c': Cov)
    requires |c.afl.cvg| == MAP_SIZE
    ensures |c'.afl.cvg| == MAP_SIZE
  {
    if evs == [] then c else Advance(Runs(c, evs[..|evs| - 1]), evs[|evs| - 1])
  }

  /**
   * Across any number of runs, killed or ended properly, while the clock never reads zero: no block
   * is logged twice, the known blocks are exactly the logged ones, and the queue never fills up.
   */
  lemma {:induction false} RunsConserveBlocks(c: Cov, evs: seq<RunEvent>)
    requires |c.afl.cvg| == MAP_SIZE && Conserved(c.blocks)
    requires forall ev | ev in evs :: ev.Traced? && ev.e.Logged? ==> ev.e.now != 0
    ensures Conserved(Runs(c, evs).blocks)
  {
    if evs != [] {
      RunsConserveBlocks(c, evs[..|evs| - 1]);
      var d := Runs(c, evs[..|evs| - 1]);
      match evs[|evs| - 1]
      case Traced(e) => ObserveKeepsConserved(d, e);
      case Translated(pc, size) =>
        assert Logged(Advance(d, evs[|evs| - 1]).blocks) == Logged(d.blocks);
      case SnapPoint => assert Advance(d, SnapPoint).blocks == d.blocks;
      case DumpNow => FlushKeepsLogged(d.blocks);
      case NewProcess => RestartKeepsConserved(d);
    }
  }

  /** In a fresh process, and again from the snapshot point on, each byte of the map is the number of hits of
      its index outside interrupts, modulo 256. */
  lemma FreshMapCountsHits(c: Cov, log: seq<Entry>, x: nat)
    requires x < MAP_SIZE && |c.afl.cvg| == MAP_SIZE
    ensures Fold(Restart(c), log).afl.cvg[x] == Hits(Erase(0, log), x) % 256
    ensures Fold(Advance(c, SnapPoint), log).afl.cvg[x] == Hits(Erase(0, log), x) % 256
  {
    MapCountsHits(Restart(c), log, x);
    MapCountsHits(Advance(c, SnapPoint), log, x);
  }

  /** The size noted at the last translation of a block is the one its line in the file will carry, until the
      process ends. */
  lemma {:induction false} LastTranslationCounts(c: Cov, evs: seq<RunEvent>, i: nat)
    requires |c.afl.cvg| == MAP_SIZE && i < |evs| && evs[i].Translated?
    requires forall j | i < j < |evs| ::
               !evs[j].NewProcess? && (evs[j].Translated? ==> Mask(evs[j].pc) != Mask(evs[i].pc))
    ensures var sizes, pc := Runs(c, evs).blocks.sizes, evs[i].pc - evs[i].pc % 2;
            pc in sizes && sizes[pc] == evs[i].size
  {
    hide Observe;
    var front, last := evs[..|evs| - 1], evs[|evs| - 1];
    if i < |front| {
      LastTranslationCounts(c, front, i);
      if last.Traced? {
        ObserveKeepsSizes(Runs(c, front), last.e);
      }
    }
  }

  lemma ObserveKeepsSizes(c: Cov, e: Entry)
    requires |c.afl.cvg| == MAP_SIZE
    ensures Observe(c, e).blocks.sizes == c.blocks.sizes
  {
  }

  // ----- the files as text -----

  const U32: nat := 0x1_0000_0000

  function PrintLine(l: Line): string {
    PrintHex8(l.pc) + ("\t" + (PrintDec(l.insns) + ("\t" + (PrintDec(l.stamp) + "\n"))))
  }

  function PrintLines(file: seq<Line>): string {
    if file == [] then "" else PrintLine(file[0]) + PrintLines(file[1..])
  }

  /** A line as it stands in bbl.txt: eight lower-case hexadecimal digits, then two decimal numbers. */
  lemma LinePrintsAs()
    ensures PrintLine(Line(0x800_ABC, 12, 345)) == "00800abc\t12\t345\n"
  {
    Hex800abc();
    Decimals();
    hide PrintHex8, PrintDec;
  }

  lemma Hex800abc()
    ensures PrintHex8(0x800_ABC) == "00800abc"
  {
    Digits800abc();
    PadTo("800abc", "00", 8);
    hide PrintNumber, Pad;
  }

  lemma Digits800abc()
    ensures PrintNumber(0x800_ABC, 16) == "800abc"
  {
    assert PrintNumber(0x8, 16) == "8";
    hide PrintNumber;
    NextHexDigit(0x8, 0, "8");
    NextHexDigit(0x80, 0, "80");
    NextHexDigit(0x800, 0xA, "800");
    NextHexDigit(0x800A, 0xB, "800a");
    NextHexDigit(0x800AB, 0xC, "800ab");
  }

  /** The last digit of a number is its remainder, before it stand the digits of the quotient. */
  lemma NextHexDigit(n: nat, d: nat, s: string)
    requires n > 0 && d < 16 && PrintNumber(n, 16) == s
    ensures PrintNumber(16 * n + d, 16) == s + ["0123456789abcdef"[d]]
  {
    hide PrintNumber;
    HexUnfolds(16 * n + d);
    assert (16 * n + d) / 16 == n;
  }

  lemma HexUnfolds(n: nat)
    requires n >= 16
    ensures PrintNumber(n, 16) == PrintNumber(n / 16, 16) + [Digit(n % 16)]
  {
    hide Digit;
  }

  lemma Decimals()
    ensures PrintDec(12) == "12" && PrintDec(345) == "345"
  {
    assert PrintNumber(1, 10) == "1";
    assert PrintNumber(3, 10) == "3";
    assert PrintNumber(34, 10) == "34";
  }

  /** Conversions fill 32-bit fields, and reading stops at the first line that does not convert. */
  function ReadLines(s: string): seq<Line>
    decreases |s|
  {
    match ScanHex(s)
    case NoMatch => []
    case Match(pc, s1) =>
      match ScanDec(s1)
      case NoMatch => []
      case Match(insns, s2) =>
        match ScanDec(s2)
        case NoMatch => []
        case Match(stamp, s3) => [Line(pc % U32, insns % U32, stamp % U32)] + ReadLines(s3)
  }

  lemma Regroup3(a: string, b: string, c: string, tail: string)
    ensures (a + ("\t" + (b + ("\t" + (c + "\n"))))) + tail == a + ("\t" + (b + ("\t" + (c + ("\n" + tail)))))
  {
  }

  lemma ReadOneLine(l: Line, s: string, s1: string, s2: string, s3: string)
    requires ScanHex(s) == Match(l.pc, s1) && ScanDec(s1) == Match(l.insns, s2) && ScanDec(s2) == Match(l.stamp, s3)
    ensures ReadLines(s) == [l] + ReadLines(s3)
  {
    hide ScanHex, ScanDec;
  }

  lemma LineReadsBack(l: Line, tail: string, lead: string)
    requires IsLead(lead)
    ensures ReadLines(lead + (PrintLine(l) + tail)) == [l] + ReadLines("\n" + tail)
  {
    var h, d1, d2 := PrintHex8(l.pc), PrintDec(l.insns), PrintDec(l.stamp);
    Regroup3(h, d1, d2, tail);
    ScanLine(l, h, d1, d2, tail, lead);
  }

  lemma ScanLine(l: Line, h: string, d1: string, d2: string, tail: string, lead: string)
    requires IsLead(lead) && h == PrintHex8(l.pc) && d1 == PrintDec(l.insns) && d2 == PrintDec(l.stamp)
    ensures ReadLines(lead + (h + ("\t" + (d1 + ("\t" + (d2 + ("\n" + tail))))))) == [l] + ReadLines("\n" + tail)
  {
    var t3 := "\n" + tail;
    var t2 := "\t" + (d2 + t3);
    var t1 := "\t" + (d1 + t2);
    SpaceStops('\n', tail);
    SpaceStops('\t', d2 + t3);
    SpaceStops('\t', d1 + t2);
    Hex8ReadsBack(lead, l.pc, t1);
    DecReadsBack("\t", l.insns, t2);
    DecReadsBack("\t", l.stamp, t3);
    ReadOneLine(l, lead + (h + t1), t1, t2, t3);
  }

  lemma {:induction false} LinesReadBack(file: seq<Line>, lead: string)
    requires IsLead(lead)
    ensures ReadLines(lead + PrintLines(file)) == file
  {
    hide PrintLine;
    if file == [] {
      assert lead + PrintLines(file) == lead;
      assert SkipSpace(lead) == "";
    } else {
      LineReadsBack(file[0], PrintLines(file[1..]), lead);
      LinesReadBack(file[1..], "\n");
    }
  }

  /** Reading stops where a line does not convert: whatever follows it, the lines before it are all there is. */
  lemma {:induction false} ReadingStops(file: seq<Line>, junk: string, lead: string)
    requires IsLead(lead) && junk != "" && !IsSpace(junk[0]) && DigitValue(junk[0]) == 16
    ensures ReadLines(lead + (PrintLines(file) + junk)) == file
  {
    hide PrintLine;
    if file == [] {
      assert PrintLines(file) + junk == junk;
      SkipLead(lead, junk);
    } else {
      var rest := PrintLines(file[1..]) + junk;
      assert PrintLines(file) + junk == PrintLine(file[0]) + rest;
      LineReadsBack(file[0], rest, lead);
      ReadingStops(file[1..], junk, "\n");
    }
  }

  /** What the dumps wrote to bbl.txt reads back line by line, however many dumps wrote it. */
  lemma BlockFileReadsBack(file: seq<Line>)
    ensures ReadLines(PrintLines(file)) == file
  {
    LinesReadBack(file, "");
    assert "" + PrintLines(file) == PrintLines(file);
  }

  lemma {:induction false} PrintLinesAppend(a: seq<Line>, b: seq<Line>)
    ensures PrintLines(a + b) == PrintLines(a) + PrintLines(b)
  {
    if a == [] {
      assert a + b == b;
    } else {
      assert (a + b)[1..] == a[1..] + b;
      PrintLinesAppend(a[1..], b);
    }
  }

  function PrintEdge(p: (word, word)): string {
    PrintHex8(p.0) + ("\t" + (PrintHex8(p.1) + "\n"))
  }

  function PrintEdges(ps: seq<(word, word)>): string {
    if ps == [] then "" else PrintEdge(ps[0]) + PrintEdges(ps[1..])
  }

  /** An edge as it stands in edges.txt: source, then destination. */
  lemma EdgePrintsAs()
    ensures PrintEdge((0x800_ABC, 0)) == "00800abc\t00000000\n"
  {
    Hex800abc();
    HexZero();
    hide PrintHex8;
  }

  lemma HexZero()
    ensures PrintHex8(0) == "00000000"
  {
    assert PrintNumber(0, 16) == "0";
    PadTo("0", "0000000", 8);
    hide PrintNumber, Pad;
  }

  function ReadEdges(s: string): set<(word, word)>
    decreases |s|
  {
    match ScanHex(s)
    case NoMatch => {}
    case Match(src, s1) =>
      match ScanHex(s1)
      case NoMatch => {}
      case Match(dst, s2) => {(src % U32, dst % U32)} + ReadEdges(s2)
  }

  lemma Regroup2(a: string, b: string, tail: string)
    ensures (a + ("\t" + (b + "\n"))) + tail == a + ("\t" + (b + ("\n" + tail)))
  {
  }

  lemma ReadOneEdge(p: (word, word), s: string, s1: string, s2: string)
    requires ScanHex(s) == Match(p.0, s1) && ScanHex(s1) == Match(p.1, s2)
    ensures ReadEdges(s) == {p} + ReadEdges(s2)
  {
    hide ScanHex;
  }

  lemma EdgeReadsBack(p: (word, word), tail: string, lead: string)
    requires IsLead(lead)
    ensures ReadEdges(lead + (PrintEdge(p) + tail)) == {p} + ReadEdges("\n" + tail)
  {
    var h0, h1 := PrintHex8(p.0), PrintHex8(p.1);
    Regroup2(h0, h1, tail);
    ScanEdge(p, h0, h1, tail, lead);
  }

  lemma ScanEdge(p: (word, word), h0: string, h1: string, tail: string, lead: string)
    requires IsLead(lead) && h0 == PrintHex8(p.0) && h1 == PrintHex8(p.1)
    ensures ReadEdges(lead + (h0 + ("\t" + (h1 + ("\n" + tail))))) == {p} + ReadEdges("\n" + tail)
  {
    var t2 := "\n" + tail;
    var t1 := "\t" + (h1 + t2);
    SpaceStops('\n', tail);
    SpaceStops('\t', h1 + t2);
    Hex8ReadsBack(lead, p.0, t1);
    Hex8ReadsBack("\t", p.1, t2);
    ReadOneEdge(p, lead + (h0 + t1), t1, t2);
  }

  lemma {:induction false} EdgesReadBack(ps: seq<(word, word)>, lead: string)
    requires IsLead(lead)
    ensures ReadEdges(lead + PrintEdges(ps)) == set p | p in ps
  {
    if ps == [] {
      assert lead + PrintEdges(ps) == lead;
      assert SkipSpace(lead) == "";
    } else {
      EdgeReadsBack(ps[0], PrintEdges(ps[1..]), lead);
      EdgesReadBack(ps[1..], "\n");
    }
  }

  /** Whatever order the hash table was written in, edges.txt reads back as the same set. */
  lemma EdgeFileReadsBack(ps: seq<(word, word)>)
    ensures ReadEdges(PrintEdges(ps)) == set p | p in ps
  {
    EdgesReadBack(ps, "");
    assert "" + PrintEdges(ps) == PrintEdges(ps);
  }
}
