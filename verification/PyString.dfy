// Python's str.find, str.split and the first-occurrence str.replace.
module PyString {
  import opened Options

  /** p occurs in s at i. */
  predicate At(s: string, p: string, i: nat) {
    i + |p| <= |s| && s[i..i + |p|] == p
  }

  ghost predicate Contains(s: string, p: string) {
    exists i :: At(s, p, i)
  }

  /** The leftmost occurrence at or after i. */
  function FindFrom(s: string, p: string, i: nat): (r: Option<nat>)
    ensures r.Some? ==> i <= r.value && At(s, p, r.value) && forall j: nat | i <= j < r.value :: !At(s, p, j)
    ensures r.None? ==> forall j: nat | i <= j :: !At(s, p, j)
    decreases |s| - i
  {
    if i + |p| > |s| then None else if s[i..i + |p|] == p then Some(i) else FindFrom(s, p, i + 1)
  }

  function Find(s: string, p: string): (r: Option<nat>)
    ensures r.Some? ==> At(s, p, r.value) && forall j: nat | j < r.value :: !At(s, p, j)
    ensures r.Some? <==> Contains(s, p)
  {
    FindFrom(s, p, 0)
  }

  lemma FindIs(s: string, p: string, k: nat)
    requires At(s, p, k) && forall j: nat | j < k :: !At(s, p, j)
    ensures Find(s, p) == Some(k)
  {
    hide FindFrom;
  }

  /** s.split(sep, 1), when the separator occurs. */
  function SplitOnce(s: string, sep: string): Option<(string, string)> {
    var k := Find(s, sep);
    if k.None? then None else Some((s[..k.value], s[k.value + |sep|..]))
  }

  /** s.split(sep). */
  function Split(s: string, sep: string): (parts: seq<string>)
    requires sep != ""
    ensures |parts| >= 1
  {
    var k := Find(s, sep);
    if k.None? then [s] else [s[..k.value]] + Split(s[k.value + |sep|..], sep)
  }

  /** s.replace(p, r, 1). */
  function ReplaceFirst(s: string, p: string, r: string): string {
    var k := Find(s, p);
    if k.None? then s else s[..k.value] + r + s[k.value + |p|..]
  }

  /** p does not begin inside a when a is followed by p. */
  ghost predicate EndsAt(a: string, p: string) {
    forall j: nat | j < |a| :: !At(a + p, p, j)
  }

  /** Then the first occurrence of p after a is the one that follows a. */
  lemma FindAfter(a: string, p: string, b: string)
    requires EndsAt(a, p)
    ensures Find(a + p + b, p) == Some(|a|)
    ensures (a + p + b)[..|a|] == a && (a + p + b)[|a| + |p|..] == b
  {
    var s := a + p + b;
    assert At(s, p, |a|);
    forall j: nat | j < |a|
      ensures !At(s, p, j)
    {
      assert j + |p| <= |s| ==> s[j..j + |p|] == (a + p)[j..j + |p|];
      assert !At(a + p, p, j);
    }
  }

  /** Exactly the leftmost occurrence is replaced, whatever stands around it. */
  lemma LeftmostIsReplaced(a: string, p: string, b: string, r: string)
    requires forall j: nat | j < |a| :: !At(a + p + b, p, j)
    ensures ReplaceFirst(a + p + b, p, r) == a + r + b
  {
    var s := a + p + b;
    assert s[|a|..|a| + |p|] == p && s[..|a|] == a && s[|a| + |p|..] == b;
    FindIs(s, p, |a|);
  }

  lemma NothingToReplace(s: string, p: string, r: string)
    requires !Contains(s, p)
    ensures ReplaceFirst(s, p, r) == s
  {
    assert Find(s, p).None?;
  }

  /** A pattern whose only line end is its last character. */
  predicate IsLinePattern(p: string) {
    |p| > 0 && p[|p| - 1] == '\n' && forall i | 0 <= i < |p| - 1 :: p[i] != '\n'
  }

  /** Text made of whole lines. */
  predicate WholeLines(s: string) {
    s == "" || s[|s| - 1] == '\n'
  }

  /** No occurrence of p in a + b lies on both sides of the boundary. */
  ghost predicate Apart(a: string, b: string, p: string) {
    forall i: nat | i < |a| < i + |p| :: !At(a + b, p, i)
  }

  /** A line pattern does not straddle a line boundary. */
  lemma LinesAreApart(a: string, b: string, p: string)
    requires WholeLines(a) && IsLinePattern(p)
    ensures Apart(a, b, p)
  {
    forall i: nat | i < |a| < i + |p|
      ensures !At(a + b, p, i)
    {
      assert i + |p| <= |a + b| ==> (a + b)[i..i + |p|][|a| - 1 - i] == a[|a| - 1];
    }
  }

  /** Nor does a pattern straddle a boundary followed by a character it does not have. */
  lemma ForeignCharIsApart(a: string, b: string, p: string)
    requires b != "" && b[0] !in p
    ensures Apart(a, b, p)
  {
    forall i: nat | i < |a| < i + |p|
      ensures !At(a + b, p, i)
    {
      assert i + |p| <= |a + b| ==> (a + b)[i..i + |p|][|a| - i] == b[0];
    }
  }

  /** An occurrence of a pattern lies on one side of such a boundary. */
  lemma OccursOnOneSide(a: string, b: string, p: string, i: nat)
    requires Apart(a, b, p)
    ensures At(a + b, p, i) <==> At(a, p, i) || (i >= |a| && At(b, p, i - |a|))
  {
    var s := a + b;
    if i + |p| <= |a| {
      assert s[i..i + |p|] == a[i..i + |p|];
    } else if |a| <= i && i + |p| <= |s| {
      assert s[i..i + |p|] == b[i - |a|..i - |a| + |p|];
    }
  }

  lemma ContainsSplit(a: string, b: string, p: string)
    requires Apart(a, b, p)
    ensures Contains(a + b, p) <==> Contains(a, p) || Contains(b, p)
  {
    if Contains(a + b, p) {
      var i: nat :| At(a + b, p, i);
      OccursOnOneSide(a, b, p, i);
    }
    if Contains(a, p) {
      var i: nat :| At(a, p, i);
      OccursOnOneSide(a, b, p, i);
    }
    if Contains(b, p) {
      var i: nat :| At(b, p, i);
      OccursOnOneSide(a, b, p, |a| + i);
    }
  }

  /** Whole lines without the pattern run right up to the pattern. */
  lemma LinesEndAt(a: string, p: string)
    requires WholeLines(a) && IsLinePattern(p) && !Contains(a, p)
    ensures EndsAt(a, p)
  {
    LinesAreApart(a, p, p);
    forall j: nat | j < |a|
      ensures !At(a + p, p, j)
    {
      OccursOnOneSide(a, p, p, j);
    }
  }

  /** Text without the pattern only lengthens the first part. */
  lemma SplitAfter(a: string, b: string, p: string)
    requires p != "" && Apart(a, b, p) && !Contains(a, p)
    ensures Split(a + b, p) == [a + Split(b, p)[0]] + Split(b, p)[1..]
  {
    hide FindFrom;
    var s := a + b;
    var k := Find(b, p);
    ContainsSplit(a, b, p);
    if k.Some? {
      FindShifts(a, b, p, k.value);
      assert s[..|a| + k.value] == a + b[..k.value];
      assert s[|a| + k.value + |p|..] == b[k.value + |p|..];
    }
  }

  lemma FindShifts(a: string, b: string, p: string, k: nat)
    requires Apart(a, b, p) && !Contains(a, p) && Find(b, p) == Some(k)
    ensures Find(a + b, p) == Some(|a| + k)
  {
    hide FindFrom;
    OccursOnOneSide(a, b, p, |a| + k);
    forall j: nat | j < |a| + k
      ensures !At(a + b, p, j)
    {
      OccursOnOneSide(a, b, p, j);
    }
    FindIs(a + b, p, |a| + k);
  }

  lemma FindStays(a: string, b: string, p: string, k: nat)
    requires Apart(a, b, p) && Find(a, p) == Some(k)
    ensures Find(a + b, p) == Some(k)
  {
    hide FindFrom;
    OccursOnOneSide(a, b, p, k);
    forall j: nat | j < k
      ensures !At(a + b, p, j)
    {
      OccursOnOneSide(a, b, p, j);
    }
    FindIs(a + b, p, k);
  }

  lemma SplitAt(s: string, p: string, k: nat)
    requires p != "" && Find(s, p) == Some(k)
    ensures Split(s, p) == [s[..k]] + Split(s[k + |p|..], p)
  {
    hide Find;
  }

  lemma SplitNone(s: string, p: string)
    requires p != "" && !Contains(s, p)
    ensures Split(s, p) == [s]
  {
    hide FindFrom;
  }

  /** Splitting text at a boundary nothing straddles gives the parts of both sides, two of them joined. */
  lemma {:induction false} SplitCounts(a: string, b: string, p: string)
    requires p != "" && Apart(a, b, p)
    ensures |Split(a + b, p)| == |Split(a, p)| + |Split(b, p)| - 1
    decreases |a|
  {
    hide Find, FindFrom;
    var k := Find(a, p);
    if k.None? {
      SplitAfter(a, b, p);
    } else {
      var rest := a[k.value + |p|..];
      FindStays(a, b, p, k.value);
      SplitAt(a, p, k.value);
      SplitAt(a + b, p, k.value);
      assert (a + b)[k.value + |p|..] == rest + b;
      SuffixIsApart(a, b, p, k.value + |p|);
      SplitCounts(rest, b, p);
    }
  }

  lemma SuffixIsApart(a: string, b: string, p: string, from: nat)
    requires from <= |a| && Apart(a, b, p)
    ensures Apart(a[from..], b, p)
  {
    var rest := a[from..];
    assert (a + b)[from..] == rest + b;
    forall i: nat | i < |rest| < i + |p|
      ensures !At(rest + b, p, i)
    {
      assert !At(a + b, p, from + i);
      assert i + |p| <= |rest + b| ==> (rest + b)[i..i + |p|] == (a + b)[from + i..from + i + |p|];
    }
  }

  /** A split without the pattern has one part, with it more. */
  lemma PartsTellContains(s: string, p: string)
    requires p != ""
    ensures |Split(s, p)| == 1 <==> !Contains(s, p)
  {
    hide FindFrom;
  }
}
