// Numbers in text files: what printf writes (%x, %08x, %u, %d) and what fscanf reads back.
module Text {

  /** The white space that fscanf skips before a conversion. */
  predicate IsSpace(c: char) {
    c == ' ' || c == '\t' || c == '\n' || c == '\r' || c as int == 11 || c as int == 12
  }

  const DIGITS: string := "0123456789abcdef"

  function Digit(d: nat): (c: char)
    requires d < 16
  {
    DIGITS[d]
  }

  /** The value of a digit in either case, 16 when the character is none. */
  function DigitValue(c: char): (d: nat)
    ensures d <= 16
  {
    if '0' <= c <= '9' then c as int - '0' as int
    else if 'a' <= c <= 'f' then c as int - 'a' as int + 10
    else if 'A' <= c <= 'F' then c as int - 'A' as int + 10
    else 16
  }

  function PrintNumber(n: nat, base: nat): (s: string)
    requires 2 <= base <= 16
    ensures |s| > 0
  {
    if n < base then [Digit(n)] else
      assert n / base < n by { DivisionShrinks(n, base); }
      PrintNumber(n / base, base) + [Digit(n % base)]
  }

  lemma DivisionShrinks(n: nat, base: nat)
    requires 2 <= base <= n
    ensures n / base < n
  {
    assert n == base * (n / base) + n % base;
    if n / base >= n {
      MultiplyMonotone(base, n, n / base);
    }
  }

  lemma MultiplyMonotone(a: nat, x: nat, y: nat)
    requires x <= y
    ensures a * x <= a * y
  {
  }

  /** printf's zero padding to a minimal width. */
  function Pad(s: string, width: nat): (p: string)
    ensures |p| >= |s| && |p| >= width
    decreases width - |s|
  {
    if |s| >= width then s else Pad(['0'] + s, width)
  }

  function PrintHex8(n: nat): string {
    Pad(PrintNumber(n, 16), 8)
  }

  function PrintDec(n: nat): string {
    PrintNumber(n, 10)
  }

  /** Python's hex(). */
  function PrintHex0x(n: nat): string {
    "0x" + PrintNumber(n, 16)
  }

  predicate AllDigits(s: string, base: nat) {
    forall i | 0 <= i < |s| :: DigitValue(s[i]) < base
  }

  function NumberValue(s: string, base: nat): nat {
    if s == "" then 0 else NumberValue(s[..|s| - 1], base) * base + DigitValue(s[|s| - 1])
  }

  function SkipSpace(s: string): (r: string)
    ensures |r| <= |s|
    ensures r == "" || !IsSpace(r[0])
  {
    if s != "" && IsSpace(s[0]) then SkipSpace(s[1..]) else s
  }

  /** How many leading digits s has. */
  function DigitRun(s: string, base: nat): (k: nat)
    ensures k <= |s|
  {
    if s != "" && DigitValue(s[0]) < base then 1 + DigitRun(s[1..], base) else 0
  }

  datatype Scan<T> = NoMatch | Match(value: T, rest: string)

  /** The longest run of digits at the front of s. */
  function ScanDigits(s: string, base: nat): (r: Scan<nat>)
    ensures r.Match? ==> |r.rest| < |s|
  {
    var k := DigitRun(s, base);
    if k == 0 then NoMatch else Match(NumberValue(s[..k], base), s[k..])
  }

  /** %u, and %d on unsigned text. */
  function ScanDec(s: string): (r: Scan<nat>)
    ensures r.Match? ==> |r.rest| < |s|
  {
    ScanDigits(SkipSpace(s), 10)
  }

  /** %x, with its optional 0x prefix. */
  function ScanHex(s: string): (r: Scan<nat>)
    ensures r.Match? ==> |r.rest| < |s|
  {
    var t := SkipSpace(s);
    if |t| >= 2 && t[0] == '0' && (t[1] == 'x' || t[1] == 'X') then ScanDigits(t[2..], 16) else ScanDigits(t, 16)
  }

  /** How many characters the word at the front of s has. */
  function WordRun(s: string): (k: nat)
    ensures k <= |s|
  {
    if s != "" && !IsSpace(s[0]) then 1 + WordRun(s[1..]) else 0
  }

  predicate IsWord(w: string) {
    w != "" && forall i | 0 <= i < |w| :: !IsSpace(w[i])
  }

  // ----- printing then scanning -----

  lemma DigitReadsBack(d: nat)
    requires d < 16
    ensures DigitValue(Digit(d)) == d
  {
  }

  lemma DivideAndRemain(n: nat, base: nat)
    requires base > 0
    ensures (n / base) * base + n % base == n && n % base < base
  {
  }

  /** Appending one digit appends its value. */
  lemma AppendedDigit(s: string, d: nat, base: nat)
    requires d < base <= 16 && AllDigits(s, base)
    ensures AllDigits(s + [Digit(d)], base)
    ensures NumberValue(s + [Digit(d)], base) == NumberValue(s, base) * base + d
  {
    DigitReadsBack(d);
    var t := s + [Digit(d)];
    assert t[..|t| - 1] == s;
  }

  lemma {:induction false} PrintedDigits(n: nat, base: nat)
    requires 2 <= base <= 16
    ensures AllDigits(PrintNumber(n, base), base)
    ensures NumberValue(PrintNumber(n, base), base) == n
  {
    if n < base {
      AppendedDigit("", n, base);
      assert "" + [Digit(n)] == PrintNumber(n, base);
    } else {
      DivisionShrinks(n, base);
      PrintedDigits(n / base, base);
      DivideAndRemain(n, base);
      AppendedDigit(PrintNumber(n / base, base), n % base, base);
    }
  }

  lemma {:induction false} LeadingZero(s: string, base: nat)
    requires base > 0
    ensures NumberValue(['0'] + s, base) == NumberValue(s, base)
  {
    var z := ['0'] + s;
    if s == "" {
      assert z[..|z| - 1] == "";
    } else {
      assert z[..|z| - 1] == ['0'] + s[..|s| - 1];
      LeadingZero(s[..|s| - 1], base);
    }
  }

  lemma {:induction false} PaddedDigits(s: string, width: nat, base: nat)
    requires base > 0 && AllDigits(s, base)
    ensures AllDigits(Pad(s, width), base)
    ensures NumberValue(Pad(s, width), base) == NumberValue(s, base)
    decreases width - |s|
  {
    if |s| < width {
      LeadingZero(s, base);
      PaddedDigits(['0'] + s, width, base);
    }
  }

  /** Padding puts zeros in front, up to the width. */
  lemma {:induction false} PadTo(s: string, zeros: string, width: nat)
    requires (forall i | 0 <= i < |zeros| :: zeros[i] == '0') && |zeros| + |s| == width
    ensures Pad(s, width) == zeros + s
    decreases |zeros|
  {
    if zeros != "" {
      PadTo(['0'] + s, zeros[..|zeros| - 1], width);
      assert zeros == zeros[..|zeros| - 1] + ['0'];
      assert zeros + s == zeros[..|zeros| - 1] + (['0'] + s);
    } else {
      assert zeros + s == s;
    }
  }

  /** Text after a number that does not continue it. */
  predicate Stops(tail: string, base: nat) {
    tail == "" || DigitValue(tail[0]) >= base
  }

  lemma SpaceStops(c: char, tail: string)
    requires IsSpace(c)
    ensures Stops([c] + tail, 10) && Stops([c] + tail, 16)
  {
  }

  lemma {:induction false} RunOfDigits(s: string, tail: string, base: nat)
    requires AllDigits(s, base) && Stops(tail, base)
    ensures DigitRun(s + tail, base) == |s|
  {
    if s == "" {
      assert s + tail == tail;
    } else {
      assert (s + tail)[1..] == s[1..] + tail;
      RunOfDigits(s[1..], tail, base);
    }
  }

  lemma ScanDigitsBack(s: string, tail: string, base: nat)
    requires s != "" && AllDigits(s, base) && Stops(tail, base)
    ensures ScanDigits(s + tail, base) == Match(NumberValue(s, base), tail)
  {
    RunOfDigits(s, tail, base);
    assert (s + tail)[..|s|] == s && (s + tail)[|s|..] == tail;
  }

  /** One separator character in front of a field is skipped. */
  lemma SkipOne(c: char, s: string)
    requires IsSpace(c) && (s == "" || !IsSpace(s[0]))
    ensures SkipSpace([c] + s) == s
  {
    assert ([c] + s)[1..] == s;
  }

  /** The six white space characters of C are skipped, in any number and order, and nothing else is. */
  lemma {:induction false} SixAreSkipped(lead: string, s: string)
    requires forall i | 0 <= i < |lead| :: lead[i] as int in {9, 10, 11, 12, 13, 32}
    requires s == "" || s[0] as int !in {9, 10, 11, 12, 13, 32}
    ensures SkipSpace(lead + s) == s
  {
    if lead == "" {
      assert lead + s == s;
    } else {
      assert (lead + s)[1..] == lead[1..] + s;
      SixAreSkipped(lead[1..], s);
    }
  }

  /** At most one separator stands before a field. */
  predicate IsLead(lead: string) {
    lead == "" || (|lead| == 1 && IsSpace(lead[0]))
  }

  lemma SkipLead(lead: string, s: string)
    requires IsLead(lead) && (s == "" || !IsSpace(s[0]))
    ensures SkipSpace(lead + s) == s
  {
    if lead == "" {
      assert lead + s == s;
    } else {
      assert lead == [lead[0]];
      SkipOne(lead[0], s);
    }
  }

  lemma DecReadsBack(lead: string, n: nat, tail: string)
    requires IsLead(lead) && Stops(tail, 10)
    ensures ScanDec(lead + (PrintDec(n) + tail)) == Match(n, tail)
  {
    var digits := PrintDec(n);
    PrintedDigits(n, 10);
    ScanDigitsBack(digits, tail, 10);
    assert DigitValue((digits + tail)[0]) < 10;
    SkipLead(lead, digits + tail);
  }

  lemma Hex8ReadsBack(lead: string, n: nat, tail: string)
    requires IsLead(lead) && Stops(tail, 16)
    ensures ScanHex(lead + (PrintHex8(n) + tail)) == Match(n, tail)
  {
    hide PrintNumber, Pad, NumberValue, ScanDigits;
    var digits := PrintHex8(n);
    PrintedDigits(n, 16);
    PaddedDigits(PrintNumber(n, 16), 8, 16);
    ScanDigitsBack(digits, tail, 16);
    assert DigitValue((digits + tail)[0]) < 16 && DigitValue((digits + tail)[1]) < 16;
    SkipLead(lead, digits + tail);
  }

  lemma Hex0xReadsBack(lead: string, n: nat, tail: string)
    requires IsLead(lead) && Stops(tail, 16)
    ensures ScanHex(lead + (PrintHex0x(n) + tail)) == Match(n, tail)
  {
    var digits := PrintNumber(n, 16);
    PrintedDigits(n, 16);
    ScanDigitsBack(digits, tail, 16);
    var text := PrintHex0x(n) + tail;
    assert text == "0x" + (digits + tail);
    assert text[0] == '0' && text[1] == 'x';
    SkipLead(lead, text);
    assert text[2..] == digits + tail;
  }

  lemma {:induction false} WordRunOf(w: string, tail: string)
    requires (forall i | 0 <= i < |w| :: !IsSpace(w[i])) && (tail == "" || IsSpace(tail[0]))
    ensures WordRun(w + tail) == |w|
  {
    if w == "" {
      assert w + tail == tail;
    } else {
      assert (w + tail)[1..] == w[1..] + tail;
      WordRunOf(w[1..], tail);
    }
  }
}
