// What the parser of SEARCH/REPLACE blocks makes of any response (src/fastdyn/llm/response_parser.py:255-347):
// which error it reports or what its blocks hold, and that it never reads a response with CRLF line ends.
module ParseErrors {
  import opened Options
  import opened PyString
  import opened SearchReplace

  /** The first occurrence of p in s is at k. */
  ghost predicate FirstAt(s: string, p: string, k: nat) {
    At(s, p, k) && forall j: nat | j < k :: !At(s, p, j)
  }

  /** A part is a search text up to its first separator and a replacement up to the first marker after that. */
  ghost predicate Reads(part: string, search: string, replace: string) {
    && search <= part && FirstAt(part, SEPARATOR, |search|)
    && (var rest := part[|search| + |SEPARATOR|..]; replace <= rest && FirstAt(rest, REPLACE_MARK, |replace|))
  }

  ghost predicate IsWhole(part: string) {
    exists search, replace :: Reads(part, search, replace)
  }

  /** What follows the first separator has no end marker. */
  ghost predicate IsOpen(part: string) {
    exists k: nat :: FirstAt(part, SEPARATOR, k) && !Contains(part[k + |SEPARATOR|..], REPLACE_MARK)
  }

  lemma FirstIsFound(s: string, p: string, k: nat)
    ensures FirstAt(s, p, k) <==> Find(s, p) == Some(k)
  {
    if FirstAt(s, p, k) {
      FindIs(s, p, k);
    }
  }

  /** A part that reads as two texts becomes one block of them. */
  lemma ReadPart(before: string, part: string, index: nat, search: string, replace: string)
    requires Reads(part, search, replace)
    ensures ParsePart(before, part, index) == Blocks([Block(FindTargetFile(before), search, replace, index)])
  {
    hide FindTargetFile, Find;
    FirstIsFound(part, SEPARATOR, |search|);
    var rest := part[|search| + |SEPARATOR|..];
    FirstIsFound(rest, REPLACE_MARK, |replace|);
    assert part[..|search|] == search && rest[..|replace|] == replace;
  }

  lemma UnseparatedPart(before: string, part: string, index: nat)
    requires !Contains(part, SEPARATOR)
    ensures ParsePart(before, part, index) == Malformed(MissingSeparator(index)) && !IsWhole(part)
  {
    hide FindTargetFile;
  }

  lemma OpenPart(before: string, part: string, index: nat)
    requires IsOpen(part)
    ensures ParsePart(before, part, index) == Malformed(MissingReplace(index)) && !IsWhole(part)
  {
    hide FindTargetFile, Find;
    var k: nat :| FirstAt(part, SEPARATOR, k) && !Contains(part[k + |SEPARATOR|..], REPLACE_MARK);
    FirstIsFound(part, SEPARATOR, k);
    forall search, replace ensures !Reads(part, search, replace) {
      FirstIsFound(part, SEPARATOR, |search|);
    }
  }

  /** Every part is of one of the three kinds. */
  lemma ThreeKinds(part: string)
    ensures IsWhole(part) || IsOpen(part) || !Contains(part, SEPARATOR)
  {
    hide FindFrom;
    var k := Find(part, SEPARATOR);
    if k.Some? {
      FirstIsFound(part, SEPARATOR, k.value);
      var rest := part[k.value + |SEPARATOR|..];
      var m := Find(rest, REPLACE_MARK);
      if m.Some? {
        FirstIsFound(rest, REPLACE_MARK, m.value);
        assert Reads(part, part[..k.value], rest[..m.value]);
      }
    }
  }

  /** All parts up to k, the text in front of the first marker aside, are whole. */
  ghost predicate WholeUpTo(raw: seq<string>, k: nat)
    requires k <= |raw|
  {
    forall i | 1 <= i < k :: IsWhole(raw[i])
  }

  /** The first part that is not whole decides the error, by its number. */
  lemma {:induction false} FailingPart(raw: seq<string>, index: nat, k: nat)
    requires 1 <= k < |raw| && WholeUpTo(raw, k)
    ensures !Contains(raw[k], SEPARATOR) ==> ParseParts(raw, index) == Malformed(MissingSeparator(index + k - 1))
    ensures IsOpen(raw[k]) ==> ParseParts(raw, index) == Malformed(MissingReplace(index + k - 1))
    decreases k
  {
    hide IsWhole, IsOpen, ParsePart, Contains;
    if k > 1 {
      WholeIsRead(raw[0], raw[1], index);
      assert forall i | 1 <= i < k - 1 :: raw[1..][i] == raw[i + 1];
      FailingPart(raw[1..], index + 1, k - 1);
    } else {
      if !Contains(raw[1], SEPARATOR) {
        UnseparatedPart(raw[0], raw[1], index);
      }
      if IsOpen(raw[1]) {
        OpenPart(raw[0], raw[1], index);
      }
    }
  }

  lemma WholeIsRead(before: string, part: string, index: nat)
    requires IsWhole(part)
    ensures var p := ParsePart(before, part, index);
            p.Blocks? && |p.blocks| == 1 && BlockIs(p.blocks[0], before, part, index)
  {
    hide ParsePart, Reads;
    var search, replace :| Reads(part, search, replace);
    ReadPart(before, part, index, search, replace);
  }

  /** A block is what its part reads, under the file named above it and with its number. */
  ghost predicate BlockIs(b: Block, before: string, part: string, index: nat) {
    Reads(part, b.search, b.replace) && b.file == FindTargetFile(before) && b.index == index
  }

  /** If all are whole there is a block for each, in order. */
  lemma {:induction false} WholeParts(raw: seq<string>, index: nat)
    requires |raw| >= 1 && WholeUpTo(raw, |raw|)
    ensures ParseParts(raw, index).Blocks? && |ParseParts(raw, index).blocks| == |raw| - 1
    ensures forall k | 1 <= k < |raw| ::
              BlockIs(ParseParts(raw, index).blocks[k - 1], raw[k - 1], raw[k], index + k - 1)
    decreases |raw|
  {
    hide IsWhole, ParsePart, BlockIs;
    if |raw| > 1 {
      WholeIsRead(raw[0], raw[1], index);
      var rest := raw[1..];
      assert forall i | 1 <= i < |rest| :: rest[i] == raw[i + 1];
      WholeParts(rest, index + 1);
      var first, more := ParsePart(raw[0], raw[1], index).blocks, ParseParts(rest, index + 1).blocks;
      var all := ParseParts(raw, index).blocks;
      assert all == first + more;
      forall k | 1 <= k < |raw| ensures BlockIs(all[k - 1], raw[k - 1], raw[k], index + k - 1) {
        if k > 1 {
          assert BlockIs(more[k - 2], rest[k - 2], rest[k - 1], index + 1 + (k - 1) - 1);
        }
      }
    }
  }

  lemma {:induction false} FirstNotWhole(raw: seq<string>, n: nat) returns (k: nat)
    requires n <= |raw| && !WholeUpTo(raw, n)
    ensures 1 <= k < n && WholeUpTo(raw, k) && !IsWhole(raw[k])
  {
    hide IsWhole;
    if WholeUpTo(raw, n - 1) {
      k := n - 1;
    } else {
      k := FirstNotWhole(raw, n - 1);
    }
  }

  /** What a response with a SEARCH marker parses as, whatever else it holds. */
  lemma ParsedIff(response: string, k: nat)
    requires var raw := RawParts(response); 1 <= k < |raw|
    ensures var raw := RawParts(response);
            && (Parse(response).Blocks? <==> WholeUpTo(raw, |raw|))
            && (Parse(response).Blocks? ==>
                  |Parse(response).blocks| == |raw| - 1 && BlockIs(Parse(response).blocks[k - 1], raw[k - 1], raw[k], k))
            && (Parse(response) == Malformed(MissingSeparator(k)) <==> WholeUpTo(raw, k) && !Contains(raw[k], SEPARATOR))
            && (Parse(response) == Malformed(MissingReplace(k)) <==> WholeUpTo(raw, k) && IsOpen(raw[k]))
  {
    hide IsWhole, IsOpen, Contains, RawParts, ParseParts, BlockIs;
    var raw := RawParts(response);
    if WholeUpTo(raw, |raw|) {
      WholeParts(raw, 1);
      assert IsWhole(raw[k]);
      WholeIsNeither(raw[k]);
    } else {
      var m := FirstNotWhole(raw, |raw|);
      FailingPart(raw, 1, m);
      ThreeKinds(raw[m]);
      FailsOnce(raw, m, k);
    }
  }

  lemma WholeIsNeither(part: string)
    requires IsWhole(part)
    ensures Contains(part, SEPARATOR) && !IsOpen(part)
  {
    hide Reads;
    if !Contains(part, SEPARATOR) {
      UnseparatedPart("", part, 1);
    }
    if IsOpen(part) {
      OpenPart("", part, 1);
    }
  }

  lemma FailsOnce(raw: seq<string>, m: nat, k: nat)
    requires 1 <= m < |raw| && 1 <= k < |raw| && WholeUpTo(raw, m) && !IsWhole(raw[m])
    ensures k != m ==> !(WholeUpTo(raw, k) && (IsOpen(raw[k]) || !Contains(raw[k], SEPARATOR)))
    ensures !(IsOpen(raw[m]) && !Contains(raw[m], SEPARATOR))
  {
    hide IsWhole, Contains;
    if k < m {
      assert IsWhole(raw[k]);
      WholeIsNeither(raw[k]);
    }
    if IsOpen(raw[m]) {
      OpenHasSeparator(raw[m]);
    }
  }

  lemma OpenHasSeparator(part: string)
    requires IsOpen(part)
    ensures Contains(part, SEPARATOR)
  {
  }

  /** No block is reported exactly if neither form of the SEARCH marker occurs. */
  lemma NoBlocksIff(response: string)
    ensures Parse(response) == Malformed(NoBlocks) <==>
            !Contains(response, SEARCH_MARK) && !Contains(response, SEARCH_MARK_CRLF)
  {
    PartsTellContains(response, SEARCH_MARK);
    PartsTellContains(response, SEARCH_MARK_CRLF);
    var raw := RawParts(response);
    hide ParseParts, Contains, Split;
    if |raw| > 1 {
      ErrorsAreInside(raw, 1);
    }
  }

  lemma {:induction false} ErrorsAreInside(raw: seq<string>, index: nat)
    requires |raw| >= 1
    ensures ParseParts(raw, index) != Malformed(NoBlocks)
    decreases |raw|
  {
    hide SplitOnce, FindTargetFile;
    if |raw| > 1 {
      ErrorsAreInside(raw[1..], index + 1);
    }
  }

  // ----- the parts themselves -----

  /** Parts put together again with the separator between them. */
  function Joined(parts: seq<string>, sep: string): string
    requires |parts| >= 1
  {
    if |parts| == 1 then parts[0] else parts[0] + sep + Joined(parts[1..], sep)
  }

  lemma PieceAt(s: string, p: string, from: nat, to: nat, i: nat)
    requires from <= to <= |s|
    ensures At(s[from..to], p, i) ==> At(s, p, from + i)
  {
    if i + |p| <= to - from {
      var piece := s[from..to];
      var a, b := piece[i..i + |p|], s[from + i..from + i + |p|];
      assert |a| == |b| && forall k | 0 <= k < |a| :: a[k] == b[k];
      assert a == b;
    }
  }

  lemma PieceHasNone(s: string, p: string, from: nat, to: nat)
    requires from <= to <= |s| && !Contains(s, p)
    ensures !Contains(s[from..to], p)
  {
    hide At;
    forall i: nat {
      PieceAt(s, p, from, to, i);
    }
  }

  lemma HeadHasNone(s: string, p: string, k: nat)
    requires p != "" && Find(s, p) == Some(k)
    ensures !Contains(s[..k], p) && s == s[..k] + p + s[k + |p|..]
  {
    hide FindFrom;
    forall i: nat ensures !At(s[..k], p, i) {
      PieceAt(s, p, 0, k, i);
    }
  }

  lemma {:induction false} SplitJoins(s: string, p: string)
    requires p != ""
    ensures Joined(Split(s, p), p) == s
    ensures forall i | 0 <= i < |Split(s, p)| :: !Contains(Split(s, p)[i], p)
    decreases |s|
  {
    hide Find, FindFrom, Contains;
    var k := Find(s, p);
    if k.Some? {
      var rest := s[k.value + |p|..];
      HeadHasNone(s, p, k.value);
      SplitJoins(rest, p);
      assert Split(s, p)[1..] == Split(rest, p);
    }
  }

  /** The parts are what lies between the SEARCH markers, those with LF if there is one, else those with CRLF. */
  lemma RawPartsJoin(response: string)
    ensures var raw, mark := RawParts(response), if Contains(response, SEARCH_MARK) then SEARCH_MARK else SEARCH_MARK_CRLF;
            Joined(raw, mark) == response && forall i | 0 <= i < |raw| :: !Contains(raw[i], mark)
  {
    hide Split, Joined;
    PartsTellContains(response, SEARCH_MARK);
    SplitJoins(response, SEARCH_MARK);
    SplitJoins(response, SEARCH_MARK_CRLF);
  }

  // ----- CRLF responses -----

  /** Every line ends in CRLF. */
  predicate CrlfOnly(s: string) {
    forall i | 0 <= i < |s| && s[i] == '\n' :: i > 0 && s[i - 1] == '\r'
  }

  /** A pattern with a line end after another character does not occur in such text. */
  lemma NoBareLineEnd(s: string, p: string, k: nat)
    requires CrlfOnly(s) && 0 < k < |p| && p[k] == '\n' && p[k - 1] != '\r'
    ensures !Contains(s, p)
  {
    forall i: nat ensures !At(s, p, i) {
    }
  }

  /** The CRLF form of the SEARCH marker is looked for, but the separator only with LF: a response with CRLF line
      ends throughout is never read, whatever it holds. */
  lemma CrlfNeverParses(response: string)
    requires CrlfOnly(response)
    ensures Parse(response) ==
            Malformed(if Contains(response, SEARCH_MARK_CRLF) then MissingSeparator(1) else NoBlocks)
  {
    Marks();
    assert SEARCH_MARK[14] == '\n' && SEARCH_MARK[13] == 'H';
    NoBareLineEnd(response, SEARCH_MARK, 14);
    NoBareLineEnd(response, SEPARATOR, 8);
    hide Parse, ParseParts, Contains, Find, FindFrom;
    NoBlocksIff(response);
    if Contains(response, SEARCH_MARK_CRLF) {
      PartIsPiece(response);
      var raw := RawParts(response);
      assert WholeUpTo(raw, 1);
      ParsedIff(response, 1);
    }
  }

  lemma PartIsPiece(response: string)
    requires !Contains(response, SEARCH_MARK) && Contains(response, SEARCH_MARK_CRLF) && !Contains(response, SEPARATOR)
    ensures |RawParts(response)| > 1 && !Contains(RawParts(response)[1], SEPARATOR)
  {
    hide FindFrom;
    PartsTellContains(response, SEARCH_MARK);
    PartsTellContains(response, SEARCH_MARK_CRLF);
    var raw, p := Split(response, SEARCH_MARK_CRLF), SEARCH_MARK_CRLF;
    var k := Find(response, p).value;
    var rest := response[k + |p|..];
    SplitAt(response, p, k);
    assert raw[1] == Split(rest, p)[0];
    var m := match Find(rest, p) case Some(m) => m case None => |rest|;
    assert raw[1] == rest[..m] == response[k + |p|..k + |p| + m];
    PieceHasNone(response, SEPARATOR, k + |p|, k + |p| + m);
  }

  /** A block rendered with CRLF line ends. */
  lemma CrlfBlockIsRefused(response: string)
    requires response == SEARCH_MARK_CRLF + ("old\r\n" + ("=======\r\n" + ("new\r\n" + ">>>>>>> REPLACE\r\n")))
    ensures Parse(response) == Malformed(MissingSeparator(1))
  {
    hide Parse, CrlfOnly;
    CrlfLines();
    CrlfAfter("new\r\n", ">>>>>>> REPLACE\r\n");
    CrlfAfter("=======\r\n", "new\r\n" + ">>>>>>> REPLACE\r\n");
    CrlfAfter("old\r\n", "=======\r\n" + ("new\r\n" + ">>>>>>> REPLACE\r\n"));
    CrlfAfter(SEARCH_MARK_CRLF, "old\r\n" + ("=======\r\n" + ("new\r\n" + ">>>>>>> REPLACE\r\n")));
    assert At(response, SEARCH_MARK_CRLF, 0);
    CrlfNeverParses(response);
  }

  lemma CrlfLines()
    ensures CrlfOnly(SEARCH_MARK_CRLF) && CrlfOnly("old\r\n") && CrlfOnly("=======\r\n")
    ensures CrlfOnly("new\r\n") && CrlfOnly(">>>>>>> REPLACE\r\n")
  {
  }

  lemma CrlfAfter(a: string, b: string)
    requires CrlfOnly(a) && CrlfOnly(b)
    ensures CrlfOnly(a + b)
  {
    if b != "" && b[0] == '\n' {
      assert false;
    }
    forall i | 0 <= i < |a + b| && (a + b)[i] == '\n' ensures i > 0 && (a + b)[i - 1] == '\r' {
      if i >= |a| {
        assert b[i - |a|] == '\n';
      }
    }
  }

  // ----- headers in any spelling -----

  /** The letters FILE: in any case; Python also takes the I with and without its dot in either case. */
  predicate SpellsFile(s: string, a: nat) {
    && a + 5 <= |s| && s[a] in "Ff" && (s[a + 1] in "Ii" || s[a + 1] as int == 0x130 || s[a + 1] as int == 0x131)
    && s[a + 2] in "Ll" && s[a + 3] in "Ee" && s[a + 4] == ':'
  }

  /** From i on: two slashes, white space up to a, FILE:, white space up to b, and a name up to e that cannot be
      longer. */
  ghost predicate HeaderParts(s: string, i: nat, a: nat, b: nat, e: nat) {
    && i + 2 <= a && a + 5 <= b < e <= |s| && s[i] == s[i + 1] == '/' && SpellsFile(s, a)
    && (forall k | i + 2 <= k < a :: IsSpace(s[k])) && (forall k | a + 5 <= k < b :: IsSpace(s[k]))
    && (forall k | b <= k < e :: !IsSpace(s[k])) && (e < |s| ==> IsSpace(s[e]))
  }

  /** A header is found at a position exactly if it has these parts, and its file is the name. */
  lemma HeaderAtIff(s: string, i: nat)
    ensures HeaderAt(s, i) <==> exists a: nat, b: nat, e: nat :: HeaderParts(s, i, a, b, e)
    ensures forall a: nat, b: nat, e: nat | HeaderParts(s, i, a, b, e) :: s[NameStart(s, i)..WordEnd(s, NameStart(s, i))] == s[b..e]
  {
    if HeaderAt(s, i) {
      SpelledIff(s, SpaceEnd(s, i + 2));
      assert HeaderParts(s, i, SpaceEnd(s, i + 2), NameStart(s, i), WordEnd(s, NameStart(s, i)));
    }
    forall a: nat, b: nat, e: nat | HeaderParts(s, i, a, b, e)
      ensures HeaderAt(s, i) && NameStart(s, i) == b && WordEnd(s, b) == e
    {
      PartsAreHeader(s, i, a, b, e);
    }
  }

  lemma SpelledIff(s: string, a: nat)
    ensures FileWordAt(s, a) <==> SpellsFile(s, a)
  {
  }

  lemma PartsAreHeader(s: string, i: nat, a: nat, b: nat, e: nat)
    requires HeaderParts(s, i, a, b, e)
    ensures HeaderAt(s, i) && NameStart(s, i) == b && WordEnd(s, b) == e
  {
    SpelledIff(s, a);
    SpaceEndIs(s, i + 2, a);
    SpaceEndIs(s, a + 5, b);
    WordEndAt(s, b, e);
  }

  lemma {:induction false} WordEndAt(s: string, b: nat, e: nat)
    requires b <= e <= |s| && (forall k | b <= k < e :: !IsSpace(s[k])) && (e < |s| ==> IsSpace(s[e]))
    ensures WordEnd(s, b) == e
    decreases e - b
  {
    if b < e {
      WordEndAt(s, b + 1, e);
    }
  }
}
