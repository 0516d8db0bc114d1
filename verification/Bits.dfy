/** Bitwise OR and XOR of natural numbers, bit by bit. */
module Bits {
  function Pow2(k: nat): (p: nat)
    ensures p > 0
  {
    if k == 0 then 1 else 2 * Pow2(k - 1)
  }

  function Or(a: nat, b: nat): nat {
    if a == 0 && b == 0 then 0
    else 2 * Or(a / 2, b / 2) + if a % 2 == 1 || b % 2 == 1 then 1 else 0
  }

  function Xor(a: nat, b: nat): nat {
    if a == 0 && b == 0 then 0
    else 2 * Xor(a / 2, b / 2) + if a % 2 != b % 2 then 1 else 0
  }

  lemma {:induction false} OrZero(a: nat)
    ensures Or(a, 0) == a
  {
    if a > 0 {
      OrZero(a / 2);
    }
  }

  lemma OrEven(h: nat, b: nat)
    ensures Or(2 * h, b) == 2 * Or(h, b / 2) + b % 2
  {
  }

  lemma Twice(h: nat, p: nat)
    ensures h * (2 * p) == 2 * (h * p)
  {
  }

  /** Where no bits meet, OR is a sum. */
  lemma {:induction false} OrDisjoint(high: nat, low: nat, k: nat)
    requires low < Pow2(k)
    ensures Or(high * Pow2(k), low) == high * Pow2(k) + low
    decreases k
  {
    if k == 0 {
      OrZero(high);
    } else {
      var p := Pow2(k - 1);
      OrDisjoint(high, low / 2, k - 1);
      Twice(high, p);
      OrEven(high * p, low);
    }
  }

  /** OR with a multiple of 2^k leaves the low k bits alone. */
  lemma {:induction false} OrKeepsLow(high: nat, b: nat, k: nat)
    ensures Or(high * Pow2(k), b) % Pow2(k) == b % Pow2(k)
    decreases k
  {
    if k > 0 {
      var p := Pow2(k - 1);
      OrKeepsLow(high, b / 2, k - 1);
      Twice(high, p);
      OrEven(high * p, b);
      DoubleMod(Or(high * p, b / 2), b % 2, p);
      DoubleMod(b / 2, b % 2, p);
    }
  }

  lemma DoubleMod(h: nat, bit: nat, p: nat)
    requires bit < 2 && p > 0
    ensures (2 * h + bit) % (2 * p) == 2 * (h % p) + bit
  {
    var q, r := h / p, h % p;
    assert h == p * q + r;
    assert 2 * h + bit == (2 * p) * q + (2 * r + bit);
    DivUnique(2 * h + bit, 2 * p, q, 2 * r + bit);
  }

  lemma MulBound(d: int, e: int)
    requires d >= 0
    ensures e >= 1 ==> d * e >= d
    ensures e <= -1 ==> d * e <= -d
  {
  }

  lemma DivUnique(x: nat, d: nat, q: nat, r: nat)
    requires x == d * q + r && r < d
    ensures x / d == q && x % d == r
  {
    MulBound(d, x / d - q);
    assert d * (x / d - q) == r - x % d;
  }

  /** Bit k of a. */
  predicate Bit(a: nat, k: nat)
    decreases k
  {
    if k == 0 then a % 2 == 1 else Bit(a / 2, k - 1)
  }

  lemma {:induction false} BitIs(a: nat, k: nat)
    ensures Bit(a, k) <==> a / Pow2(k) % 2 == 1
    decreases k
  {
    if k > 0 {
      BitIs(a / 2, k - 1);
      DivTwice(a, Pow2(k - 1));
    }
  }

  lemma DivTwice(a: nat, p: nat)
    requires p > 0
    ensures a / 2 / p == a / (2 * p)
  {
    var h, q, r := a / 2, a / 2 / p, a / 2 % p;
    assert h == p * q + r;
    assert a == (2 * p) * q + (2 * r + a % 2);
    DivUnique(a, 2 * p, q, 2 * r + a % 2);
  }

  lemma OrHalves(a: nat, b: nat)
    ensures Or(a, b) / 2 == Or(a / 2, b / 2)
    ensures Or(a, b) % 2 == if a % 2 == 1 || b % 2 == 1 then 1 else 0
  {
  }

  /** OR bit by bit, whether or not the operands overlap. */
  lemma {:induction false} OrBits(a: nat, b: nat, k: nat)
    ensures Bit(Or(a, b), k) <==> Bit(a, k) || Bit(b, k)
    decreases k
  {
    OrHalves(a, b);
    if k > 0 {
      OrBits(a / 2, b / 2, k - 1);
    }
  }

  /** XOR bit by bit. */
  lemma {:induction false} XorBits(a: nat, b: nat, k: nat)
    ensures Bit(Xor(a, b), k) <==> Bit(a, k) != Bit(b, k)
    decreases k
  {
    XorHalves(a, b);
    if k > 0 {
      XorBits(a / 2, b / 2, k - 1);
    }
  }

  /** A number is determined by its bits. */
  lemma {:induction false} SameBits(a: nat, b: nat)
    requires forall k: nat :: Bit(a, k) == Bit(b, k)
    ensures a == b
    decreases a + b
  {
    assert Bit(a, 0) == Bit(b, 0);
    if a + b > 0 {
      forall k: nat ensures Bit(a / 2, k) == Bit(b / 2, k) {
        assert Bit(a, k + 1) == Bit(b, k + 1);
      }
      SameBits(a / 2, b / 2);
    }
  }

  /** The bits of an OR above bit k. */
  lemma {:induction false} OrShift(high: nat, b: nat, k: nat, p: nat, m: nat, q: nat)
    requires p == Pow2(k) && m == high * p && q == b / p
    ensures Or(m, b) / p == Or(high, q)
    decreases k
  {
    if k > 0 {
      var h := Pow2(k - 1);
      assert p == 2 * h;
      Twice(high, h);
      DivTwice(b, h);
      OrShift(high, b / 2, k - 1, h, high * h, q);
      OrHalves(m, b);
      DivTwice(Or(m, b), h);
    }
  }

  lemma DivExact(h: nat, p: nat)
    requires p > 0 && h % p == 0
    ensures h / p * p == h
  {
  }

  lemma XorHalves(a: nat, b: nat)
    ensures Xor(a, b) / 2 == Xor(a / 2, b / 2)
    ensures Xor(a, b) % 2 == if a % 2 != b % 2 then 1 else 0
  {
  }

  lemma {:induction false} XorUndone(a: nat, b: nat)
    ensures Xor(Xor(a, b), b) == a
    decreases a + b
  {
    if a > 0 || b > 0 {
      XorUndone(a / 2, b / 2);
      XorHalves(a, b);
      XorHalves(Xor(a, b), b);
    }
  }

  lemma {:induction false} XorCommutes(a: nat, b: nat)
    ensures Xor(a, b) == Xor(b, a)
    decreases a + b
  {
    if a > 0 || b > 0 {
      XorCommutes(a / 2, b / 2);
    }
  }

  lemma {:induction false} OrBound(a: nat, b: nat, k: nat)
    requires a < Pow2(k) && b < Pow2(k)
    ensures Or(a, b) < Pow2(k)
    decreases k
  {
    if k > 0 && (a > 0 || b > 0) {
      OrBound(a / 2, b / 2, k - 1);
    }
  }

  lemma {:induction false} XorBound(a: nat, b: nat, k: nat)
    requires a < Pow2(k) && b < Pow2(k)
    ensures Xor(a, b) < Pow2(k)
    decreases k
  {
    if k > 0 && (a > 0 || b > 0) {
      XorBound(a / 2, b / 2, k - 1);
    }
  }

  lemma Pow2Values()
    ensures Pow2(16) == 0x1_0000 && Pow2(32) == 0x1_0000_0000
  {
    assert Pow2(4) == 16;
    assert Pow2(8) == 16 * Pow2(4);
    assert Pow2(12) == 16 * Pow2(8);
    assert Pow2(16) == 16 * Pow2(12);
    assert Pow2(20) == 16 * Pow2(16);
    assert Pow2(24) == 16 * Pow2(20);
    assert Pow2(28) == 16 * Pow2(24);
    assert Pow2(32) == 16 * Pow2(28);
  }

  /** high | low, where low fits below the bits of high. */
  method OrBelow(high: nat, low: nat, k: nat) returns (v: nat)
    requires high % Pow2(k) == 0 && low < Pow2(k)
    ensures v == Or(high, low) == high + low
  {
    DivExact(high, Pow2(k));
    OrDisjoint(high / Pow2(k), low, k);
    v := Or(high, low);
  }
}
