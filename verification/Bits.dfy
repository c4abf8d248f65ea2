// The bits of a number and the exclusive or of C, as the coverage map uses it.
module Bits {

  /** Bit k of n, the lowest being bit 0. */
  predicate Bit(n: nat, k: nat) {
    if k == 0 then n % 2 == 1 else Bit(n / 2, k - 1)
  }

  function Pow2(m: nat): (p: nat)
    ensures p > 0
  {
    if m == 0 then 1 else 2 * Pow2(m - 1)
  }

  /** Bitwise exclusive or, from the lowest bit up. */
  function Xor(a: nat, b: nat): nat {
    if a == 0 && b == 0 then 0 else (if a % 2 != b % 2 then 1 else 0) + 2 * Xor(a / 2, b / 2)
  }

  /** x has 16 bits, each set exactly where the low bits of a and b differ. */
  predicate Differ16(x: nat, a: nat, b: nat) {
    x < 0x1_0000 && forall k: nat | k < 16 :: Bit(x, k) <==> Bit(a, k) != Bit(b, k)
  }

  lemma {:induction false} NoBits(k: nat)
    ensures !Bit(0, k)
  {
    if k > 0 {
      NoBits(k - 1);
    }
  }

  /** Bit by bit, the exclusive or is set where the two numbers differ. */
  lemma {:induction false} XorBits(a: nat, b: nat, k: nat)
    ensures Bit(Xor(a, b), k) <==> Bit(a, k) != Bit(b, k)
  {
    if a == 0 && b == 0 {
      NoBits(k);
    } else if k > 0 {
      XorBits(a / 2, b / 2, k - 1);
      assert Xor(a, b) / 2 == Xor(a / 2, b / 2);
    }
  }

  lemma Parts(n: nat, d: nat) returns (q: nat, r: nat)
    requires d > 0
    ensures n == d * q + r && r == n % d && r < d
  {
    q, r := n / d, n % d;
  }

  lemma HalfOfRest(n: nat, h: nat)
    requires h > 0
    ensures (n % (2 * h)) / 2 == (n / 2) % h && (n % (2 * h)) % 2 == n % 2
  {
    var q, r := Parts(n, 2 * h);
    Halves(n, h, q, r);
    RestIs(n / 2, h, q, r / 2);
  }

  lemma Halves(n: nat, h: nat, q: nat, r: nat)
    requires n == (2 * h) * q + r
    ensures n / 2 == h * q + r / 2 && n % 2 == r % 2
  {
    var p := h * q;
    assert n == 2 * p + r;
  }

  lemma RestIs(n: nat, h: nat, q: nat, r: nat)
    requires n == h * q + r && r < h
    ensures n % h == r
  {
    var k := n / h - q;
    assert n == h * (n / h) + n % h;
    assert h * k == r - n % h;
  }

  lemma {:induction false} LowBits(n: nat, m: nat, k: nat)
    requires k < m
    ensures Bit(n % Pow2(m), k) <==> Bit(n, k)
  {
    HalfOfRest(n, Pow2(m - 1));
    if k > 0 {
      LowBits(n / 2, m - 1, k - 1);
    }
  }

  lemma {:induction false} BitsDetermine(x: nat, y: nat, m: nat)
    requires x < Pow2(m) && y < Pow2(m) && forall k: nat | k < m :: Bit(x, k) <==> Bit(y, k)
    ensures x == y
  {
    if m > 0 {
      assert Bit(x, 0) <==> Bit(y, 0);
      forall k: nat | k < m - 1 ensures Bit(x / 2, k) <==> Bit(y / 2, k) {
        assert Bit(x, k + 1) <==> Bit(y, k + 1);
      }
      BitsDetermine(x / 2, y / 2, m - 1);
    }
  }

  lemma SixteenBits()
    ensures Pow2(16) == 0x1_0000
  {
    assert Pow2(4) == 16;
    assert Pow2(8) == 256;
    assert Pow2(12) == 4096;
  }

  /** The exclusive or cut to 16 bits is the one number whose bits tell where a and b differ. */
  lemma Xor16Iff(x: nat, a: nat, b: nat)
    ensures Differ16(x, a, b) <==> x == Xor(a, b) % 0x1_0000
  {
    hide Bit;
    SixteenBits();
    var y := Xor(a, b) % 0x1_0000;
    forall k: nat | k < 16 ensures Bit(y, k) <==> Bit(a, k) != Bit(b, k) {
      LowBits(Xor(a, b), 16, k);
      XorBits(a, b, k);
    }
    if Differ16(x, a, b) {
      BitsDetermine(x, y, 16);
    }
  }
}
