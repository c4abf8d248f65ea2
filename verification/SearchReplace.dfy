// SEARCH/REPLACE edit blocks (src/fastdyn/llm/response_parser.py:255-347): how a response is cut
// into blocks, and that cutting undoes writing.
module SearchReplace {
  import opened Options
  import opened PyString

  const SEARCH_MARK: string := "<<<<<<< SEARCH\n"
  const SEARCH_MARK_CRLF: string := "<<<<<<< SEARCH\r\n"
  const SEPARATOR: string := "\n=======\n"
  const REPLACE_MARK: string := "\n>>>>>>> REPLACE"

  datatype Block = Block(file: string, search: string, replace: string, index: nat)

  datatype ParseError = NoBlocks | MissingSeparator(index: nat) | MissingReplace(index: nat)
  datatype Parsed = Blocks(blocks: seq<Block>) | Malformed(error: ParseError)

  // ----- the header pattern //\s*FILE:\s*(\S+), case ignored -----

  /** What \s matches in a Python str pattern. */
  predicate IsSpace(c: char) {
    var n := c as int;
    9 <= n <= 13 || 28 <= n <= 32 || n == 0x85 || n == 0xA0 || n == 0x1680 || 0x2000 <= n <= 0x200A ||
    n == 0x2028 || n == 0x2029 || n == 0x202F || n == 0x205F || n == 0x3000
  }

  /** The letters FILE: under IGNORECASE; the I also matches its dotless and dotted forms. */
  predicate IsFileChar(k: nat, c: char)
    requires k < 5
  {
    match k
    case 0 => c == 'F' || c == 'f'
    case 1 => c == 'I' || c == 'i' || c as int == 0x130 || c as int == 0x131
    case 2 => c == 'L' || c == 'l'
    case 3 => c == 'E' || c == 'e'
    case _ => c == ':'
  }

  predicate FileWordAt(s: string, i: nat) {
    && i + 5 <= |s|
    && IsFileChar(0, s[i]) && IsFileChar(1, s[i + 1]) && IsFileChar(2, s[i + 2])
    && IsFileChar(3, s[i + 3]) && IsFileChar(4, s[i + 4])
  }

  /** The end of the white space that starts at i. */
  function SpaceEnd(s: string, i: nat): (e: nat)
    ensures i <= e && (i <= |s| ==> e <= |s|)
    ensures forall k | i <= k < e && k < |s| :: IsSpace(s[k])
    ensures e < |s| ==> !IsSpace(s[e])
    decreases |s| - i
  {
    if i < |s| && IsSpace(s[i]) then SpaceEnd(s, i + 1) else i
  }

  /** The end of the word that starts at i. */
  function WordEnd(s: string, i: nat): (e: nat)
    ensures i <= e && (i <= |s| ==> e <= |s|)
    ensures forall k | i <= k < e && k < |s| :: !IsSpace(s[k])
    ensures e < |s| ==> IsSpace(s[e])
    decreases |s| - i
  {
    if i < |s| && !IsSpace(s[i]) then WordEnd(s, i + 1) else i
  }

  /** Where the captured name of a header at i starts. */
  function NameStart(s: string, i: nat): nat {
    SpaceEnd(s, SpaceEnd(s, i + 2) + 5)
  }

  predicate HeaderAt(s: string, i: nat) {
    && i + 2 <= |s| && s[i] == '/' && s[i + 1] == '/'
    && FileWordAt(s, SpaceEnd(s, i + 2))
    && NameStart(s, i) < WordEnd(s, NameStart(s, i))
  }

  /** The name in the last header found scanning from i, or the one found before. */
  function LastFile(s: string, i: nat, best: string): string
    decreases |s| - i
  {
    if i >= |s| then best
    else if HeaderAt(s, i) then LastFile(s, WordEnd(s, NameStart(s, i)), s[NameStart(s, i)..WordEnd(s, NameStart(s, i))])
    else LastFile(s, i + 1, best)
  }

  function FindTargetFile(preamble: string): string {
    LastFile(preamble, 0, "")
  }

  // ----- parsing -----

  /** One raw part as a block; `before` is the part in front of its marker. */
  function ParsePart(before: string, part: string, index: nat): Parsed {
    match SplitOnce(part, SEPARATOR)
    case None => Malformed(MissingSeparator(index))
    case Some((search, rest)) =>
      match SplitOnce(rest, REPLACE_MARK)
      case None => Malformed(MissingReplace(index))
      case Some((replace, _)) => Blocks([Block(FindTargetFile(before), search, replace, index)])
  }

  /** The blocks of the parts after the first; the first malformed one ends everything. */
  function ParseParts(raw: seq<string>, index: nat): Parsed
    requires |raw| >= 1
    decreases |raw|
  {
    if |raw| == 1 then Blocks([]) else
      match ParsePart(raw[0], raw[1], index)
      case Malformed(e) => Malformed(e)
      case Blocks(first) =>
        match ParseParts(raw[1..], index + 1)
        case Malformed(e) => Malformed(e)
        case Blocks(more) => Blocks(first + more)
  }

  function RawParts(response: string): (raw: seq<string>)
    ensures |raw| >= 1
  {
    var raw := Split(response, SEARCH_MARK);
    if |raw| <= 1 then Split(response, SEARCH_MARK_CRLF) else raw
  }

  function Parse(response: string): Parsed {
    var raw := RawParts(response);
    if |raw| <= 1 then Malformed(NoBlocks) else ParseParts(raw, 1)
  }

  /** The parser's loop: blocks are appended until one is malformed. */
  method ParseSearchReplaceBlocks(response: string) returns (r: Parsed)
    ensures r == Parse(response)
  {
    hide Split, SplitOnce, FindTargetFile;
    var raw := Split(response, SEARCH_MARK);
    if |raw| <= 1 {
      raw := Split(response, SEARCH_MARK_CRLF);
    }
    if |raw| <= 1 {
      return Malformed(NoBlocks);
    }
    var blocks: seq<Block> := [];
    for i := 1 to |raw|
      invariant ParseParts(raw, 1) == Prepend(blocks, ParseParts(raw[i - 1..], i))
    {
      assert raw[i - 1..][1..] == raw[i..];
      var cut := SplitOnce(raw[i], SEPARATOR);
      if cut.None? {
        return Malformed(MissingSeparator(i));
      }
      var cut2 := SplitOnce(cut.value.1, REPLACE_MARK);
      if cut2.None? {
        return Malformed(MissingReplace(i));
      }
      ghost var before := blocks;
      blocks := blocks + [Block(FindTargetFile(raw[i - 1]), cut.value.0, cut2.value.0, i)];
      PrependOne(before, blocks[|before|], ParseParts(raw[i..], i + 1));
    }
    r := Blocks(blocks);
  }

  function Prepend(blocks: seq<Block>, p: Parsed): Parsed {
    if p.Malformed? then p else Blocks(blocks + p.blocks)
  }

  lemma PrependOne(blocks: seq<Block>, b: Block, p: Parsed)
    ensures Prepend(blocks, Prepend([b], p)) == Prepend(blocks + [b], p)
  {
    if p.Blocks? {
      assert blocks + ([b] + p.blocks) == blocks + [b] + p.blocks;
    }
  }

  // ----- writing -----

  function Header(file: string): string {
    "// FILE: " + file + "\n"
  }

  /** Everything of a block after its SEARCH marker. */
  function Body(b: Block): string {
    b.search + SEPARATOR + b.replace + REPLACE_MARK + "\n"
  }

  function Render(blocks: seq<Block>): string {
    if blocks == [] then "" else Header(blocks[0].file) + SEARCH_MARK + Body(blocks[0]) + Render(blocks[1..])
  }

  function Numbered(blocks: seq<Block>, index: nat): (r: seq<Block>)
    ensures |r| == |blocks|
    decreases |blocks|
  {
    if blocks == [] then [] else [blocks[0].(index := index)] + Numbered(blocks[1..], index + 1)
  }

  predicate IsName(file: string) {
    file != "" && forall i | 0 <= i < |file| :: !IsSpace(file[i])
  }

  /** The texts cannot be mistaken for markers, a trailing line end counted. */
  ghost predicate Clean(b: Block) {
    && !Contains(b.search + "\n", SEARCH_MARK)
    && !Contains(b.search + "\n", SEPARATOR)
    && !Contains(b.replace + "\n", SEARCH_MARK)
    && !Contains(b.replace + "\n", REPLACE_MARK)
  }

  // ----- the markers -----

  lemma Marks()
    ensures |SEARCH_MARK| == 15 && IsLinePattern(SEARCH_MARK)
    ensures |SEPARATOR| == 9 && SEPARATOR[0] == '\n' && SEPARATOR[8] == '\n' && forall i | 1 <= i < 8 :: SEPARATOR[i] == '='
    ensures |REPLACE_MARK| == 16 && REPLACE_MARK[0] == '\n' && forall i | 1 <= i < 16 :: REPLACE_MARK[i] != '\n'
  {
  }

  lemma HeaderHasNoMark(file: string)
    requires IsName(file)
    ensures !Contains(Header(file), SEARCH_MARK)
  {
    var h := Header(file);
    forall j: nat
      ensures !At(h, SEARCH_MARK, j)
    {
      if j + 15 <= |h| {
        assert SEARCH_MARK[7] == ' ' && SEARCH_MARK[0] == '<';
        assert h[j..j + 15][7] == h[j + 7] && h[j..j + 15][0] == h[j];
        assert h[1] == '/';
        assert forall i | 9 <= i < |h| :: h[i] != ' ';
        assert "// FILE: "[7] == ':' && h[7] == ':';
      }
    }
  }

  lemma FixedLinesHaveNoMark()
    ensures !Contains("=======\n", SEARCH_MARK) && !Contains(">>>>>>> REPLACE\n", SEARCH_MARK)
  {
    var eq, re := "=======\n", ">>>>>>> REPLACE\n";
    forall j: nat
      ensures !At(eq, SEARCH_MARK, j) && !At(re, SEARCH_MARK, j)
    {
      if j + 15 <= |re| {
        assert re[j..j + 15][0] == re[j];
        assert SEARCH_MARK[0] == '<';
        assert re[0] == '>' && re[1] == '>';
      }
    }
  }

  lemma BodyLines(b: Block)
    ensures Body(b) == (b.search + "\n") + ("=======\n" + ((b.replace + "\n") + ">>>>>>> REPLACE\n"))
  {
    assert SEPARATOR == "\n" + "=======\n";
    assert REPLACE_MARK + "\n" == "\n" + ">>>>>>> REPLACE\n";
  }

  /** The body holds a SEARCH marker exactly when one of its texts does. */
  lemma BodyHasMarkIff(b: Block)
    ensures Contains(Body(b), SEARCH_MARK) <==>
            Contains(b.search + "\n", SEARCH_MARK) || Contains(b.replace + "\n", SEARCH_MARK)
    ensures WholeLines(Body(b)) && Body(b) != ""
  {
    Marks();
    BodyLines(b);
    FixedLinesHaveNoMark();
    var tail := (b.replace + "\n") + ">>>>>>> REPLACE\n";
    LinesAreApart(b.search + "\n", "=======\n" + tail, SEARCH_MARK);
    LinesAreApart("=======\n", tail, SEARCH_MARK);
    LinesAreApart(b.replace + "\n", ">>>>>>> REPLACE\n", SEARCH_MARK);
    ContainsSplit(b.search + "\n", "=======\n" + tail, SEARCH_MARK);
    ContainsSplit("=======\n", tail, SEARCH_MARK);
    ContainsSplit(b.replace + "\n", ">>>>>>> REPLACE\n", SEARCH_MARK);
  }

  /** A separator cannot straddle the end of the search text: it starts inside exactly when it lies inside with one line end. */
  lemma SeparatorEndsAtIff(search: string)
    ensures EndsAt(search, SEPARATOR) <==> !Contains(search + "\n", SEPARATOR)
  {
    Marks();
    var whole, inner := search + SEPARATOR, search + "\n";
    forall j: nat | j < |search|
      ensures At(whole, SEPARATOR, j) <==> At(inner, SEPARATOR, j)
    {
      if j + 9 <= |inner| {
        assert whole[j..j + 9] == inner[j..j + 9];
      } else {
        assert whole[j..j + 9][|search| - j] == whole[|search|] == SEPARATOR[0];
      }
    }
  }

  lemma ReplaceEndsAtIff(replace: string)
    ensures EndsAt(replace, REPLACE_MARK) <==> !Contains(replace + "\n", REPLACE_MARK)
  {
    Marks();
    var whole, inner := replace + REPLACE_MARK, replace + "\n";
    forall j: nat | j < |replace|
      ensures At(whole, REPLACE_MARK, j) <==> At(inner, REPLACE_MARK, j)
    {
      if j + 16 <= |inner| {
        assert whole[j..j + 16] == inner[j..j + 16];
      } else {
        assert whole[j..j + 16][|replace| - j] == whole[|replace|] == REPLACE_MARK[0];
      }
    }
  }

  // ----- the header in front of a marker is the last one found -----

  /** What precedes a header: nothing, or a body, which ends in the REPLACE line. */
  predicate EndsInReplaceLine(s: string) {
    |s| >= 16 && s[|s| - 16..] == ">>>>>>> REPLACE\n"
  }

  lemma {:induction false} SpaceEndIs(s: string, i: nat, e: nat)
    requires i <= e < |s| && !IsSpace(s[e]) && forall k | i <= k < e :: IsSpace(s[k])
    ensures SpaceEnd(s, i) == e
    decreases e - i
  {
    if i < e {
      SpaceEndIs(s, i + 1, e);
    }
  }

  lemma {:induction false} WordEndIs(s: string, i: nat, e: nat)
    requires i <= e < |s| && IsSpace(s[e]) && forall k | i <= k < e :: !IsSpace(s[k])
    ensures WordEnd(s, i) == e
    decreases e - i
  {
    if i < e {
      WordEndIs(s, i + 1, e);
    }
  }

  /** Text at n that reads // FILE: and a word up to e is a header. */
  lemma HeaderShape(s: string, n: nat, e: nat)
    requires n + 9 < e < |s|
    requires s[n] == '/' && s[n + 1] == '/' && s[n + 2] == ' '
    requires s[n + 3] == 'F' && s[n + 4] == 'I' && s[n + 5] == 'L' && s[n + 6] == 'E' && s[n + 7] == ':' && s[n + 8] == ' '
    requires (forall k | n + 9 <= k < e :: !IsSpace(s[k])) && IsSpace(s[e])
    ensures HeaderAt(s, n) && NameStart(s, n) == n + 9 && WordEnd(s, n + 9) == e
  {
    SpaceEndIs(s, n + 2, n + 3);
    SpaceEndIs(s, n + 8, n + 9);
    WordEndIs(s, n + 9, e);
  }

  /** The characters of a header. */
  lemma HeaderChars(file: string)
    ensures var h := Header(file);
            && |h| == |file| + 10 && h[9..|h| - 1] == file && h[|h| - 1] == '\n'
            && h[0] == '/' && h[1] == '/' && h[2] == ' ' && h[3] == 'F' && h[4] == 'I' && h[5] == 'L' && h[6] == 'E'
            && h[7] == ':' && h[8] == ' '
  {
    assert "// FILE: " == ['/', '/', ' ', 'F', 'I', 'L', 'E', ':', ' '];
  }

  lemma ShiftedChar(pre: string, h: string, i: nat)
    requires i < |h|
    ensures (pre + h)[|pre| + i] == h[i]
  {
  }

  /** The written header is found where it stands, with the whole name. */
  lemma HeaderIsFound(pre: string, file: string)
    requires IsName(file)
    ensures var s := pre + Header(file);
            && |pre| + 9 < |s| - 1 && s[|s| - 1] == '\n'
            && HeaderAt(s, |pre|) && NameStart(s, |pre|) == |pre| + 9 && WordEnd(s, |pre| + 9) == |s| - 1
            && s[|pre| + 9..|s| - 1] == file
  {
    hide Header, HeaderAt, NameStart, WordEnd;
    var h := Header(file);
    var s := pre + h;
    HeaderChars(file);
    forall i: nat | i < |h|
      ensures s[|pre| + i] == h[i]
    {
      ShiftedChar(pre, h, i);
    }
    assert s[|pre| + 9..|s| - 1] == h[9..|h| - 1];
    forall k | |pre| + 9 <= k < |s| - 1
      ensures !IsSpace(s[k])
    {
      assert s[k] == s[|pre| + 9..|s| - 1][k - |pre| - 9] == file[k - |pre| - 9];
    }
    assert s[|pre| + 0] == h[0] && s[|pre| + 1] == h[1] && s[|pre| + 2] == h[2] && s[|pre| + 3] == h[3] && s[|pre| + 4] == h[4];
    assert s[|pre| + 5] == h[5] && s[|pre| + 6] == h[6] && s[|pre| + 7] == h[7] && s[|pre| + 8] == h[8];
    assert s[|pre| + (|h| - 1)] == h[|h| - 1];
    HeaderShape(s, |pre|, |s| - 1);
  }

  /** A header that begins before a REPLACE line ends in it at the latest. */
  lemma HeaderStopsAtReplaceLine(s: string, b: nat, i: nat)
    requires b + 16 <= |s| && i < b + 16 && HeaderAt(s, i)
    requires s[b] == '>' && s[b + 15] == '\n' && forall k | b <= k < b + 16 :: s[k] != '/'
    ensures WordEnd(s, NameStart(s, i)) <= b + 16
  {
    assert i + 1 < b;
    var w := SpaceEnd(s, i + 2);
    var k := SpaceEnd(s, w + 5);
    assert w <= b && !IsSpace('>');
    assert w + 5 <= b by {
      assert FileWordAt(s, w);
      assert b != w && b != w + 1 && b != w + 2 && b != w + 3 && b != w + 4;
    }
    assert k <= b;
    assert IsSpace(s[b + 15]);
  }

  lemma EarlierHeaderEndsBefore(pre: string, i: nat)
    requires EndsInReplaceLine(pre) && i < |pre| && HeaderAt(UpToHeader(pre), i)
    ensures WordEnd(UpToHeader(pre), NameStart(UpToHeader(pre), i)) <= |pre|
  {
    hide HeaderAt, WordEnd, NameStart;
    var s := UpToHeader(pre);
    var b := |pre| - 16;
    var line := ">>>>>>> REPLACE\n";
    assert line[0] == '>' && line[15] == '\n' && forall k | 0 <= k < 16 :: line[k] != '/';
    forall k | b <= k < |pre|
      ensures s[k] == line[k - b]
    {
      assert s[k] == pre[k] == pre[b..][k - b];
    }
    HeaderStopsAtReplaceLine(s, b, i);
  }

  // ----- a header in the text above may run into the header in front of a marker -----

  /** Text, then the first three characters of a header. */
  function UpToHeader(pre: string): string {
    pre + "// "
  }

  /** The name of the header found in the text above that runs past its end, scanning from i. */
  function OverrunFrom(pre: string, i: nat): Option<string>
    decreases |pre| - i
  {
    var t := UpToHeader(pre);
    if i >= |pre| then None
    else if HeaderAt(t, i) then
      var e := WordEnd(t, NameStart(t, i));
      if e > |pre| then Some(t[NameStart(t, i)..e]) else OverrunFrom(pre, e)
    else OverrunFrom(pre, i + 1)
  }

  function Overrun(pre: string): Option<string> {
    OverrunFrom(pre, 0)
  }

  /** What is left of a header whose slashes were taken for a name. */
  function HeaderRest(file: string): string {
    " FILE: " + file + "\n"
  }

  lemma {:induction false} SpaceEndInPrefix(t: string, s: string, i: nat)
    requires t <= s && SpaceEnd(t, i) < |t|
    ensures SpaceEnd(s, i) == SpaceEnd(t, i)
    decreases |t| - i
  {
    if i < |t| && IsSpace(t[i]) {
      SpaceEndInPrefix(t, s, i + 1);
    }
  }

  lemma {:induction false} WordEndInPrefix(t: string, s: string, i: nat)
    requires t <= s && WordEnd(t, i) < |t|
    ensures WordEnd(s, i) == WordEnd(t, i)
    decreases |t| - i
  {
    if i < |t| && !IsSpace(t[i]) {
      WordEndInPrefix(t, s, i + 1);
    }
  }

  lemma UpToHeaderChars(pre: string)
    ensures var t := UpToHeader(pre);
            && |t| == |pre| + 3 && t[|pre|] == '/' && t[|pre| + 1] == '/' && t[|pre| + 2] == ' '
            && !IsSpace('/') && IsSpace(' ')
  {
    assert "// " == ['/', '/', ' '];
  }

  /** A match begun in the text above is decided by what comes up to the space of the header, and ends
      there at the latest. */
  lemma MatchIsDecided(pre: string, s: string, i: nat)
    requires UpToHeader(pre) <= s && i < |pre|
    ensures var t := UpToHeader(pre);
            && (HeaderAt(s, i) <==> HeaderAt(t, i))
            && (HeaderAt(t, i) ==>
                  && NameStart(s, i) == NameStart(t, i) <= |pre|
                  && WordEnd(s, NameStart(s, i)) == WordEnd(t, NameStart(t, i)) <= |pre| + 2)
  {
    hide SpaceEnd, WordEnd, UpToHeader;
    var t := UpToHeader(pre);
    UpToHeaderChars(pre);
    if s[i] == '/' && s[i + 1] == '/' {
      var w := SpaceEnd(t, i + 2);
      assert w <= |pre| + 1;
      SpaceEndInPrefix(t, s, i + 2);
      FileWordInPrefix(pre, s, w);
      if FileWordAt(t, w) {
        var k := SpaceEnd(t, w + 5);
        assert k <= |pre|;
        SpaceEndInPrefix(t, s, w + 5);
        assert WordEnd(t, k) <= |pre| + 2;
        WordEndInPrefix(t, s, k);
      }
    }
  }

  /** The word FILE: has no slash, so it does not reach into the header. */
  lemma FileWordInPrefix(pre: string, s: string, w: nat)
    requires UpToHeader(pre) <= s && w <= |pre| + 1
    ensures FileWordAt(s, w) <==> FileWordAt(UpToHeader(pre), w)
    ensures FileWordAt(s, w) ==> w + 5 <= |pre|
  {
    hide UpToHeader;
    UpToHeaderChars(pre);
    var t := UpToHeader(pre);
    assert s[|pre|] == '/' && s[|pre| + 1] == '/';
    if w + 5 > |pre| {
      var j := if w <= |pre| then |pre| else |pre| + 1;
      assert j == w || j == w + 1 || j == w + 2 || j == w + 3 || j == w + 4;
      assert !FileWordAt(s, w) && !FileWordAt(t, w);
    }
  }

  /** The scan of text and header: without an overrun the header is found last, otherwise its rest is
      scanned with the name that swallowed the slashes. */
  lemma {:induction false} ScanFrom(pre: string, file: string, i: nat, best: string)
    requires IsName(file) && i <= |pre|
    ensures LastFile(pre + Header(file), i, best) ==
            match OverrunFrom(pre, i)
            case None => file
            case Some(name) => LastFile(pre + Header(file), |pre| + 2, name)
    decreases |pre| - i
  {
    hide Header, HeaderAt, NameStart, WordEnd, UpToHeader;
    var s := pre + Header(file);
    HeaderBegins(pre, file);
    if i == |pre| {
      HeaderIsFound(pre, file);
      EndOfScan(s, file);
    } else {
      MatchIsDecided(pre, s, i);
      var t := UpToHeader(pre);
      if HeaderAt(t, i) {
        var e := WordEnd(t, NameStart(t, i));
        assert s[NameStart(t, i)..e] == t[NameStart(t, i)..e] by { UpToHeaderChars(pre); }
        if e > |pre| {
          OverrunEndsAtSpace(t, pre, i);
        } else {
          MatchEndsLater(t, i);
          ScanFrom(pre, file, e, s[NameStart(t, i)..e]);
        }
      } else {
        ScanFrom(pre, file, i + 1, best);
      }
    }
  }

  lemma MatchEndsLater(t: string, i: nat)
    requires HeaderAt(t, i)
    ensures WordEnd(t, NameStart(t, i)) > i
  {
  }

  lemma OverrunEndsAtSpace(t: string, pre: string, i: nat)
    requires t == UpToHeader(pre) && i < |pre| && HeaderAt(t, i) && WordEnd(t, NameStart(t, i)) > |pre|
    ensures WordEnd(t, NameStart(t, i)) == |pre| + 2
  {
    hide SpaceEnd, WordEnd, UpToHeader, HeaderAt, NameStart;
    UpToHeaderChars(pre);
    MatchIsDecided(pre, t, i);
    var e := WordEnd(t, NameStart(t, i));
    assert e < |t| ==> IsSpace(t[e]);
  }

  lemma HeaderBegins(pre: string, file: string)
    ensures UpToHeader(pre) <= pre + Header(file)
  {
    assert Header(file) == "// " + ("FILE: " + file + "\n");
    assert pre + Header(file) == UpToHeader(pre) + ("FILE: " + file + "\n");
  }

  /** After a header that ends before the last line end nothing more is found. */
  lemma EndOfScan(s: string, file: string)
    requires s != "" && s[|s| - 1] == '\n'
    ensures LastFile(s, |s| - 1, file) == file
  {
    assert !HeaderAt(s, |s| - 1);
    assert LastFile(s, |s|, file) == file;
  }

  // ----- scanning the rest of a swallowed header -----

  lemma {:induction false} SpaceEndShifts(a: string, b: string, i: nat)
    ensures SpaceEnd(a + b, |a| + i) == |a| + SpaceEnd(b, i)
    decreases |b| - i
  {
    if i < |b| && IsSpace(b[i]) {
      SpaceEndShifts(a, b, i + 1);
    }
  }

  lemma {:induction false} WordEndShifts(a: string, b: string, i: nat)
    ensures WordEnd(a + b, |a| + i) == |a| + WordEnd(b, i)
    decreases |b| - i
  {
    if i < |b| && !IsSpace(b[i]) {
      WordEndShifts(a, b, i + 1);
    }
  }

  lemma HeaderShifts(a: string, b: string, i: nat)
    ensures HeaderAt(a + b, |a| + i) <==> HeaderAt(b, i)
    ensures NameStart(a + b, |a| + i) == |a| + NameStart(b, i)
    ensures WordEnd(a + b, |a| + NameStart(b, i)) == |a| + WordEnd(b, NameStart(b, i))
  {
    hide SpaceEnd, WordEnd, FileWordAt;
    var w := SpaceEnd(b, i + 2);
    SpaceEndShifts(a, b, i + 2);
    SpaceEndShifts(a, b, w + 5);
    WordEndShifts(a, b, NameStart(b, i));
    FileWordShifts(a, b, w);
    assert i + 2 <= |b| ==> (a + b)[|a| + i] == b[i] && (a + b)[|a| + i + 1] == b[i + 1];
  }

  lemma FileWordShifts(a: string, b: string, w: nat)
    ensures FileWordAt(a + b, |a| + w) <==> FileWordAt(b, w)
  {
    hide IsFileChar;
    if w + 5 <= |b| {
      var s := a + b;
      assert s[|a| + w] == b[w] && s[|a| + w + 1] == b[w + 1] && s[|a| + w + 2] == b[w + 2];
      assert s[|a| + w + 3] == b[w + 3] && s[|a| + w + 4] == b[w + 4];
    }
  }

  lemma {:induction false} LastFileShifts(a: string, b: string, i: nat, best: string)
    ensures LastFile(a + b, |a| + i, best) == LastFile(b, i, best)
    decreases |b| - i
  {
    hide HeaderAt, NameStart, WordEnd;
    if i < |b| {
      HeaderShifts(a, b, i);
      if HeaderAt(b, i) {
        MatchEndsLater(b, i);
        var k := NameStart(b, i);
        var e := WordEnd(b, k);
        NameInside(b, i);
        assert (a + b)[|a| + k..|a| + e] == b[k..e];
        LastFileShifts(a, b, e, b[k..e]);
      } else {
        LastFileShifts(a, b, i + 1, best);
      }
    }
  }

  lemma NameInside(s: string, i: nat)
    requires HeaderAt(s, i)
    ensures i + 7 <= NameStart(s, i) < WordEnd(s, NameStart(s, i)) <= |s|
  {
  }

  /** What was found before only counts when nothing else is found. */
  lemma {:induction false} LastFileForgets(s: string, i: nat, best: string)
    ensures LastFile(s, i, best) == if LastFile(s, i, "") == "" then best else LastFile(s, i, "")
    decreases |s| - i
  {
    hide HeaderAt, NameStart, WordEnd;
    if i < |s| {
      if HeaderAt(s, i) {
        MatchEndsLater(s, i);
        NameInside(s, i);
        var k := NameStart(s, i);
        var e := WordEnd(s, k);
        LastFileForgets(s, e, s[k..e]);
      } else {
        LastFileForgets(s, i + 1, best);
      }
    }
  }

  /** A name found in a text lies at least seven characters behind the start of its header. */
  lemma {:induction false} FoundNameIsShort(s: string, i: nat, best: string, first: nat)
    requires forall j | i <= j < |s| && HeaderAt(s, j) :: j >= first
    requires forall j | i <= j < |s| && HeaderAt(s, j) :: WordEnd(s, NameStart(s, j)) < |s|
    ensures LastFile(s, i, best) == best || |LastFile(s, i, best)| + first + 8 <= |s|
    decreases |s| - i
  {
    hide HeaderAt, NameStart, WordEnd;
    if i < |s| {
      if HeaderAt(s, i) {
        MatchEndsLater(s, i);
        NameInside(s, i);
        var k := NameStart(s, i);
        var e := WordEnd(s, k);
        FoundNameIsShort(s, e, s[k..e], first);
      } else {
        FoundNameIsShort(s, i + 1, best, first);
      }
    }
  }

  /** A header inside a file name has a shorter name. */
  lemma NestedNameIsShorter(file: string)
    requires IsName(file)
    ensures |FindTargetFile(HeaderRest(file))| < |file|
  {
    var s := HeaderRest(file);
    assert " FILE: " == [' ', 'F', 'I', 'L', 'E', ':', ' '];
    assert |s| == |file| + 8 && s[|s| - 1] == '\n' && IsSpace(s[|s| - 1]);
    hide SpaceEnd, WordEnd, LastFile, HeaderRest;
    forall j | 0 <= j < |s| && HeaderAt(s, j)
      ensures j >= 1 && WordEnd(s, NameStart(s, j)) < |s|
    {
      NameInside(s, j);
      var e := WordEnd(s, NameStart(s, j));
      assert !IsSpace(s[e - 1]);
    }
    FoundNameIsShort(s, 0, "", 1);
  }

  /** No header begun above runs into the one in front of the marker; or one does, takes exactly that
      file's name for its own, and the rest holds no further header. */
  predicate HeaderWins(pre: string, file: string) {
    match Overrun(pre)
    case None => true
    case Some(name) => name == file && FindTargetFile(HeaderRest(file)) == ""
  }

  /** Whatever text precedes: the target of a block is the file of the header written in front of it if
      and only if the header wins. */
  lemma TargetIsHeaderIff(pre: string, file: string)
    requires IsName(file)
    ensures FindTargetFile(pre + Header(file)) == file <==> HeaderWins(pre, file)
  {
    hide LastFile, OverrunFrom, Header, HeaderRest;
    ScanFrom(pre, file, 0, "");
    if Overrun(pre).Some? {
      var name := Overrun(pre).value;
      HeaderFallsApart(pre, file);
      LastFileShifts(pre + "//", HeaderRest(file), 0, name);
      LastFileForgets(HeaderRest(file), 0, name);
      NestedNameIsShorter(file);
    }
  }

  lemma HeaderFallsApart(pre: string, file: string)
    ensures pre + Header(file) == (pre + "//") + HeaderRest(file) && |pre + "//"| == |pre| + 2
  {
    assert "// FILE: " == "//" + " FILE: ";
    assert Header(file) == "//" + HeaderRest(file);
  }

  /** A bare header line above takes the slashes of the next one for its name. */
  lemma BareHeaderLineWins(pre: string, file: string)
    requires pre == "// FILE:\n" && file == "a.c"
    ensures FindTargetFile(pre + Header(file)) == "//" && Overrun(pre) == Some("//")
  {
    hide LastFile, Header, HeaderRest, OverrunFrom;
    BareHeaderOverruns(pre);
    ScanFrom(pre, file, 0, "");
    HeaderFallsApart(pre, file);
    LastFileShifts(pre + "//", HeaderRest(file), 0, "//");
    LastFileForgets(HeaderRest(file), 0, "//");
    PlainRest(file);
    NoHeaderInPlainName(HeaderRest(file));
  }

  lemma BareHeaderOverruns(pre: string)
    requires pre == "// FILE:\n"
    ensures OverrunFrom(pre, 0) == Some("//")
  {
    hide WordEnd, SpaceEnd;
    var t := UpToHeader(pre);
    assert t == ['/', '/', ' ', 'F', 'I', 'L', 'E', ':', '\n', '/', '/', ' '];
    SpaceEndIs(t, 2, 3);
    SpaceEndIs(t, 8, 9);
    WordEndIs(t, 9, 11);
    assert FileWordAt(t, 3);
    assert HeaderAt(t, 0) && NameStart(t, 0) == 9;
    assert t[9..11] == "//";
  }

  lemma PlainRest(file: string)
    requires file == "a.c"
    ensures '/' !in HeaderRest(file)
  {
    assert HeaderRest(file) == [' ', 'F', 'I', 'L', 'E', ':', ' ', 'a', '.', 'c', '\n'];
  }

  lemma NoHeaderInPlainName(s: string)
    requires '/' !in s
    ensures LastFile(s, 0, "") == ""
  {
    NoSlashNoHeader(s, 0);
  }

  lemma {:induction false} NoSlashNoHeader(s: string, i: nat)
    requires '/' !in s
    ensures LastFile(s, i, "") == ""
    decreases |s| - i
  {
    if i < |s| {
      NoSlashNoHeader(s, i + 1);
    }
  }

  /** Nothing runs over the end of a REPLACE line, so after a block, or at the start, the header wins. */
  lemma {:induction false} NoOverrunAfterBlock(pre: string, i: nat)
    requires pre == "" || EndsInReplaceLine(pre)
    ensures OverrunFrom(pre, i).None?
    decreases |pre| - i
  {
    hide HeaderAt, NameStart, WordEnd, UpToHeader;
    if i < |pre| {
      var t := UpToHeader(pre);
      if HeaderAt(t, i) {
        EarlierHeaderEndsBefore(pre, i);
        MatchEndsLater(t, i);
        NoOverrunAfterBlock(pre, WordEnd(t, NameStart(t, i)));
      } else {
        NoOverrunAfterBlock(pre, i + 1);
      }
    }
  }

  /** After a block, or at the start, the target is the file of the header in front of the marker. */
  lemma TargetIsHeader(pre: string, file: string)
    requires IsName(file) && (pre == "" || EndsInReplaceLine(pre))
    ensures FindTargetFile(pre + Header(file)) == file
  {
    NoOverrunAfterBlock(pre, 0);
    TargetIsHeaderIff(pre, file);
  }

  // ----- reading back what was written -----

  /** The raw parts of a rendering that starts after `pre`. */
  function PartsOf(pre: string, blocks: seq<Block>): (r: seq<string>)
    ensures |r| == |blocks| + 1
    decreases |blocks|
  {
    if blocks == [] then [pre] else [pre + Header(blocks[0].file)] + PartsOf(Body(blocks[0]), blocks[1..])
  }

  predicate AllNamed(blocks: seq<Block>) {
    forall b <- blocks :: IsName(b.file)
  }

  ghost predicate AllClean(blocks: seq<Block>) {
    forall b <- blocks :: Clean(b)
  }

  /** Splitting at the marker gives back the parts, if no text holds a marker. */
  lemma {:induction false} SplitRender(pre: string, blocks: seq<Block>)
    requires AllNamed(blocks) && !Contains(pre, SEARCH_MARK)
    requires forall b <- blocks :: !Contains(Body(b), SEARCH_MARK)
    ensures Split(pre + Render(blocks), SEARCH_MARK) == PartsOf(pre, blocks)
    decreases |blocks|
  {
    hide Find, Split, Body, Header, Render, Contains, IsName;
    if blocks == [] {
      RenderNothing(pre);
      SplitNone(pre, SEARCH_MARK);
    } else {
      var b, rest := blocks[0], blocks[1..];
      assert b in blocks && forall c <- rest :: c in blocks;
      RenderFirst(pre, blocks);
      SplitFirst(pre, b.file, Body(b) + Render(rest));
      SplitRender(Body(b), rest);
    }
  }

  lemma RenderNothing(pre: string)
    ensures pre + Render([]) == pre
  {
  }

  lemma RenderFirst(pre: string, blocks: seq<Block>)
    requires blocks != []
    ensures pre + Render(blocks) ==
            pre + Header(blocks[0].file) + SEARCH_MARK + (Body(blocks[0]) + Render(blocks[1..]))
  {
    hide Body, Header;
    Regroup(pre, Header(blocks[0].file), SEARCH_MARK, Body(blocks[0]), Render(blocks[1..]));
  }

  lemma Regroup(a: string, b: string, c: string, d: string, e: string)
    ensures a + (b + c + d + e) == a + b + c + (d + e)
  {
  }

  /** A header begins with a character no marker has. */
  lemma HeaderIsApart(pre: string, file: string, rest: string)
    ensures Apart(pre, Header(file) + rest, SEARCH_MARK)
  {
    assert (Header(file) + rest)[0] == "// FILE: "[0] == '/';
    assert '/' !in SEARCH_MARK;
    ForeignCharIsApart(pre, Header(file) + rest, SEARCH_MARK);
  }

  /** The marker after a header ends the part before it. */
  lemma SplitFirst(pre: string, file: string, rest: string)
    requires IsName(file) && !Contains(pre, SEARCH_MARK)
    ensures Split(pre + Header(file) + SEARCH_MARK + rest, SEARCH_MARK) == [pre + Header(file)] + Split(rest, SEARCH_MARK)
  {
    hide Find, Header, Split;
    Marks();
    var front := pre + Header(file);
    HeaderHasNoMark(file);
    HeaderIsLine(file);
    HeaderIsApart(pre, file, SEARCH_MARK);
    LinesEndAt(Header(file), SEARCH_MARK);
    assert front + SEARCH_MARK == pre + (Header(file) + SEARCH_MARK);
    forall j: nat | j < |front|
      ensures !At(front + SEARCH_MARK, SEARCH_MARK, j)
    {
      OccursOnOneSide(pre, Header(file) + SEARCH_MARK, SEARCH_MARK, j);
    }
    FindAfter(front, SEARCH_MARK, rest);
    SplitAt(front + SEARCH_MARK + rest, SEARCH_MARK, |front|);
  }

  lemma HeaderIsLine(file: string)
    ensures Header(file) != "" && WholeLines(Header(file))
  {
  }

  /** The body of a clean block, whatever follows it, is cut into exactly its two texts. */
  lemma PartReadsBack(before: string, b: Block, tail: string, index: nat)
    requires EndsAt(b.search, SEPARATOR) && EndsAt(b.replace, REPLACE_MARK)
    ensures ParsePart(before, Body(b) + tail, index) == Blocks([Block(FindTargetFile(before), b.search, b.replace, index)])
  {
    hide Find;
    var rest := b.replace + REPLACE_MARK + ("\n" + tail);
    assert Body(b) + tail == b.search + SEPARATOR + rest;
    FindAfter(b.search, SEPARATOR, rest);
    FindAfter(b.replace, REPLACE_MARK, "\n" + tail);
  }

  lemma BodyEndsInReplaceLine(b: Block)
    ensures EndsInReplaceLine(Body(b))
  {
    BodyLines(b);
  }

  lemma {:induction false} PartsReadBack(pre: string, blocks: seq<Block>, index: nat)
    requires AllNamed(blocks) && AllClean(blocks)
    requires blocks != [] ==> HeaderWins(pre, blocks[0].file)
    ensures ParseParts(PartsOf(pre, blocks), index) == Blocks(Numbered(blocks, index))
    decreases |blocks|
  {
    hide ParsePart, Body, Header, FindTargetFile, HeaderWins;
    if blocks != [] {
      var b := blocks[0];
      var raw := PartsOf(pre, blocks);
      assert forall c <- blocks[1..] :: c in blocks;
      BodyLetsHeaderWin(b, blocks[1..]);
      PartsReadBack(Body(b), blocks[1..], index + 1);
      assert raw[1..] == PartsOf(Body(b), blocks[1..]);
      assert b in blocks;
      TargetIsHeaderIff(pre, b.file);
      SeparatorEndsAtIff(b.search);
      ReplaceEndsAtIff(b.replace);
      var tail := if |blocks| == 1 then "" else Header(blocks[1].file);
      assert raw[1] == Body(b) + tail;
      PartReadsBack(raw[0], b, tail, index);
    }
  }

  lemma BodyLetsHeaderWin(b: Block, more: seq<Block>)
    ensures more != [] ==> HeaderWins(Body(b), more[0].file)
  {
    BodyEndsInReplaceLine(b);
    NoOverrunAfterBlock(Body(b), 0);
  }

  lemma AllCleanHasNoMarks(blocks: seq<Block>)
    requires AllClean(blocks)
    ensures forall b <- blocks :: !Contains(Body(b), SEARCH_MARK)
  {
    forall b <- blocks
      ensures !Contains(Body(b), SEARCH_MARK)
    {
      BodyHasMarkIff(b);
    }
  }

  /** Clean blocks under named files, below any text that holds no marker and lets the first header win,
      come back with the same files and texts, numbered from one. */
  lemma CleanBlocksReadBack(prose: string, blocks: seq<Block>)
    requires blocks != [] && AllNamed(blocks) && AllClean(blocks)
    requires !Contains(prose, SEARCH_MARK) && HeaderWins(prose, blocks[0].file)
    ensures Parse(prose + Render(blocks)) == Blocks(Numbered(blocks, 1))
  {
    hide Split, ParseParts, Render, Find, HeaderWins;
    AllCleanHasNoMarks(blocks);
    SplitRender(prose, blocks);
    PartsReadBack(prose, blocks, 1);
  }

  // ----- and only clean blocks come back -----

  /** How many markers too many the bodies hold. */
  ghost function ExtraMarks(blocks: seq<Block>): nat {
    if blocks == [] then 0 else |Split(Body(blocks[0]), SEARCH_MARK)| - 1 + ExtraMarks(blocks[1..])
  }

  lemma {:induction false} RenderPartCount(blocks: seq<Block>)
    requires AllNamed(blocks)
    ensures |Split(Render(blocks), SEARCH_MARK)| == 1 + |blocks| + ExtraMarks(blocks)
  {
    hide Find, Split, Body, Header;
    Marks();
    if blocks == [] {
      SplitNone("", SEARCH_MARK);
    } else {
      var b := blocks[0];
      assert b in blocks && forall c <- blocks[1..] :: c in blocks;
      var rest := Body(b) + Render(blocks[1..]);
      assert Render(blocks) == "" + Header(b.file) + SEARCH_MARK + rest;
      SplitFirst("", b.file, rest);
      BodyHasMarkIff(b);
      LinesAreApart(Body(b), Render(blocks[1..]), SEARCH_MARK);
      SplitCounts(Body(b), Render(blocks[1..]), SEARCH_MARK);
      RenderPartCount(blocks[1..]);
    }
  }

  lemma {:induction false} NoExtraMarks(blocks: seq<Block>)
    requires ExtraMarks(blocks) == 0
    ensures forall b <- blocks :: !Contains(Body(b), SEARCH_MARK)
  {
    if blocks != [] {
      NoExtraMarks(blocks[1..]);
      assert forall b <- blocks :: b == blocks[0] || b in blocks[1..];
    }
  }

  lemma {:induction false} ParsedCount(raw: seq<string>, index: nat)
    requires |raw| >= 1 && ParseParts(raw, index).Blocks?
    ensures |ParseParts(raw, index).blocks| == |raw| - 1
    decreases |raw|
  {
    hide ParsePart;
    if |raw| > 1 {
      OnePartOneBlock(raw[0], raw[1], index);
      ParsedCount(raw[1..], index + 1);
    }
  }

  lemma OnePartOneBlock(before: string, part: string, index: nat)
    ensures ParsePart(before, part, index).Blocks? ==> |ParsePart(before, part, index).blocks| == 1
  {
  }

  /** A text that comes back whole was not cut inside. */
  lemma CutAtEnd(a: string, p: string, tail: string)
    requires var cut := SplitOnce(a + p + tail, p); cut.Some? && cut.value.0 == a
    ensures EndsAt(a, p) && SplitOnce(a + p + tail, p).value.1 == tail
  {
    hide FindFrom;
    var s := a + p + tail;
    var k := Find(s, p).value;
    assert k == |a|;
    forall j: nat | j < |a|
      ensures !At(a + p, p, j)
    {
      assert !At(s, p, j);
      assert j + |p| <= |a + p| ==> s[j..j + |p|] == (a + p)[j..j + |p|];
    }
  }

  lemma PartTellsClean(before: string, b: Block, tail: string, index: nat)
    requires var p := ParsePart(before, Body(b) + tail, index);
             p.Blocks? && p.blocks[0].search == b.search && p.blocks[0].replace == b.replace
    ensures EndsAt(b.search, SEPARATOR) && EndsAt(b.replace, REPLACE_MARK)
  {
    hide Find;
    var rest := b.replace + REPLACE_MARK + ("\n" + tail);
    assert Body(b) + tail == b.search + SEPARATOR + rest;
    CutAtEnd(b.search, SEPARATOR, rest);
    CutAtEnd(b.replace, REPLACE_MARK, "\n" + tail);
  }

  lemma {:induction false} PartsTellClean(pre: string, blocks: seq<Block>, index: nat)
    requires ParseParts(PartsOf(pre, blocks), index) == Blocks(Numbered(blocks, index))
    ensures forall b <- blocks :: EndsAt(b.search, SEPARATOR) && EndsAt(b.replace, REPLACE_MARK)
    decreases |blocks|
  {
    hide ParsePart, Body, Header;
    if blocks != [] {
      var b := blocks[0];
      var raw := PartsOf(pre, blocks);
      assert raw[1..] == PartsOf(Body(b), blocks[1..]);
      var tail := if |blocks| == 1 then "" else Header(blocks[1].file);
      assert raw[1] == Body(b) + tail;
      OnePartOneBlock(raw[0], raw[1], index);
      var first := ParsePart(raw[0], raw[1], index).blocks;
      var more := ParseParts(raw[1..], index + 1).blocks;
      assert Numbered(blocks, index) == first + more;
      assert first[0] == Numbered(blocks, index)[0] == b.(index := index);
      PartTellsClean(raw[0], b, tail, index);
      assert more == Numbered(blocks, index)[1..] == Numbered(blocks[1..], index + 1);
      PartsTellClean(Body(b), blocks[1..], index + 1);
      assert forall c <- blocks :: c == b || c in blocks[1..];
    }
  }

  /** The first block names the file of the first header. */
  lemma FirstTargetTells(prose: string, blocks: seq<Block>)
    requires blocks != [] && AllNamed(blocks)
    requires ParseParts(PartsOf(prose, blocks), 1) == Blocks(Numbered(blocks, 1))
    ensures HeaderWins(prose, blocks[0].file)
  {
    hide Body, Header, FindTargetFile, HeaderWins, SplitOnce;
    var raw := PartsOf(prose, blocks);
    OnePartOneBlock(raw[0], raw[1], 1);
    var first := ParsePart(raw[0], raw[1], 1).blocks;
    assert Numbered(blocks, 1) == first + ParseParts(raw[1..], 2).blocks;
    assert first[0] == Numbered(blocks, 1)[0] == blocks[0].(index := 1);
    assert first[0].file == FindTargetFile(prose + Header(blocks[0].file));
    assert blocks[0] in blocks;
    TargetIsHeaderIff(prose, blocks[0].file);
  }

  lemma PartCountBelow(prose: string, blocks: seq<Block>)
    requires AllNamed(blocks) && blocks != []
    ensures |Split(prose + Render(blocks), SEARCH_MARK)| ==
            |Split(prose, SEARCH_MARK)| + |blocks| + ExtraMarks(blocks)
  {
    hide Find, Split, Body, Header, ExtraMarks;
    var rest := SEARCH_MARK + Body(blocks[0]) + Render(blocks[1..]);
    assert Render(blocks) == Header(blocks[0].file) + rest;
    HeaderIsApart(prose, blocks[0].file, rest);
    SplitCounts(prose, Render(blocks), SEARCH_MARK);
    RenderPartCount(blocks);
  }

  lemma ReadBackBlocksAreClean(prose: string, blocks: seq<Block>)
    requires blocks != [] && AllNamed(blocks) && Parse(prose + Render(blocks)) == Blocks(Numbered(blocks, 1))
    ensures AllClean(blocks) && !Contains(prose, SEARCH_MARK) && HeaderWins(prose, blocks[0].file)
  {
    hide Split, ParseParts, Render, Find, HeaderWins;
    PartCountBelow(prose, blocks);
    var raw := Split(prose + Render(blocks), SEARCH_MARK);
    ParsedCount(raw, 1);
    PartsTellContains(prose, SEARCH_MARK);
    NoExtraMarks(blocks);
    SplitRender(prose, blocks);
    PartsTellClean(prose, blocks, 1);
    FirstTargetTells(prose, blocks);
    forall b <- blocks
      ensures Clean(b)
    {
      BodyHasMarkIff(b);
      SeparatorEndsAtIff(b.search);
      ReplaceEndsAtIff(b.replace);
    }
  }

  /**
   * Parsing undoes rendering below any text exactly on clean input: blocks written under named files
   * after some prose come back with the same files and texts, numbered from one in the order written,
   * if and only if none of their texts, with a line end added, holds a marker it could be mistaken
   * for, the prose holds no SEARCH marker, and no header begun in the prose swallows the first one.
   */
  lemma ParseUndoesRenderBelowProseIff(prose: string, blocks: seq<Block>)
    requires blocks != [] && AllNamed(blocks)
    ensures Parse(prose + Render(blocks)) == Blocks(Numbered(blocks, 1)) <==>
            AllClean(blocks) && !Contains(prose, SEARCH_MARK) && HeaderWins(prose, blocks[0].file)
  {
    hide Parse, Render, HeaderWins;
    if AllClean(blocks) && !Contains(prose, SEARCH_MARK) && HeaderWins(prose, blocks[0].file) {
      CleanBlocksReadBack(prose, blocks);
    }
    if Parse(prose + Render(blocks)) == Blocks(Numbered(blocks, 1)) {
      ReadBackBlocksAreClean(prose, blocks);
    }
  }

  /** With nothing above, only the texts of the blocks matter. */
  lemma ParseUndoesRenderIffClean(blocks: seq<Block>)
    requires blocks != [] && AllNamed(blocks)
    ensures Parse(Render(blocks)) == Blocks(Numbered(blocks, 1)) <==> AllClean(blocks)
  {
    hide Parse, Render;
    ParseUndoesRenderBelowProseIff("", blocks);
    assert "" + Render(blocks) == Render(blocks);
    assert !Contains("", SEARCH_MARK);
  }
}
