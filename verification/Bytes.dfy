// Little-endian byte encoding, shared by every packed binary format of the plugin.
module Bytes {

  type byte = b: int | 0 <= b < 256

  /** 256 to the power n: the number of values n bytes can hold. */
  function Radix(n: nat): (r: nat)
    ensures r > 0
  {
    if n == 0 then 1 else 256 * Radix(n - 1)
  }

  /** The n little-endian bytes of v, as a C store through a packed integer field writes them. */
  function ToLe(v: nat, n: nat): (s: seq<byte>)
    ensures |s| == n
  {
    if n == 0 then [] else [v % 256] + ToLe(v / 256, n - 1)
  }

  /** The unsigned value of little-endian bytes. */
  function FromLe(s: seq<byte>): (v: nat)
    ensures v < Radix(|s|)
  {
    if s == [] then 0 else s[0] + 256 * FromLe(s[1..])
  }

  /** Storing and loading an n-byte field keeps every value that fits, and reduces the others modulo 256^n. */
  lemma {:induction false} LeRoundTrip(v: nat, n: nat)
    ensures v < Radix(n) ==> FromLe(ToLe(v, n)) == v
  {
    if n == 0 {
    } else {
      LeRoundTrip(v / 256, n - 1);
      assert ToLe(v, n)[1..] == ToLe(v / 256, n - 1);
      if v < Radix(n) {
        DivideBelow(v, Radix(n - 1));
      }
    }
  }

  lemma DivideBelow(v: nat, m: nat)
    requires v < 256 * m
    ensures v / 256 < m
  {
  }

  lemma RadixValues()
    ensures Radix(0) == 1 && Radix(1) == 0x100 && Radix(2) == 0x1_0000 && Radix(3) == 0x100_0000
    ensures Radix(4) == 0x1_0000_0000 && Radix(5) == 0x100_0000_0000 && Radix(6) == 0x1_0000_0000_0000
    ensures Radix(7) == 0x100_0000_0000_0000 && Radix(8) == 0x1_0000_0000_0000_0000
  {
    assert Radix(1) == 256;
    assert Radix(2) == 0x1_0000;
    assert Radix(3) == 0x100_0000;
    assert Radix(4) == 0x1_0000_0000;
    assert Radix(5) == 0x100_0000_0000;
    assert Radix(6) == 0x1_0000_0000_0000;
    assert Radix(7) == 0x100_0000_0000_0000;
  }

  /** Byte k of the encoding has the weight 256^k: the least significant byte comes first. */
  lemma {:induction false} LeastByteFirst(v: nat, n: nat, k: nat)
    requires k < n
    ensures ToLe(v, n)[k] == v / Radix(k) % 256
  {
    if k > 0 {
      LeastByteFirst(v / 256, n - 1, k - 1);
      DivideTwice(v, Radix(k - 1));
    }
  }

  lemma DivideTwice(v: nat, m: nat)
    requires m > 0
    ensures v / 256 / m == v / (256 * m)
  {
    var q, a := v / 256, v / 256 / m;
    var b := q - m * a;
    assert 0 <= b < m;
    QuotientIs(v, 256 * m, a, v - 256 * m * a);
  }

  lemma QuotientIs(v: nat, d: nat, q: nat, r: int)
    requires d > 0 && v == d * q + r && 0 <= r < d
    ensures v / d == q
  {
    var k := v / d - q;
    assert v == d * (v / d) + v % d;
    assert d * k == r - v % d;
  }

  /** Every byte string is the encoding of its value. */
  lemma {:induction false} LeBytesComeBack(s: seq<byte>)
    ensures ToLe(FromLe(s), |s|) == s
  {
    if s != [] {
      LeBytesComeBack(s[1..]);
      assert FromLe(s) % 256 == s[0] && FromLe(s) / 256 == FromLe(s[1..]);
      assert [s[0]] + s[1..] == s;
    }
  }
}
