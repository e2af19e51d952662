/** Bitwise operations on natural numbers, defined bit by bit, with the laws that turn
    masks, shifts and disjoint or-ing into arithmetic. Both machine models (JavaLong and Js)
    are built on these. */
module Bits {

  function Pow2(k: nat): (p: nat)
    ensures p > 0
  {
    if k == 0 then 1 else 2 * Pow2(k - 1)
  }

  function ShiftLeft(x: nat, k: nat): (r: nat)
  {
    MulMono(0, x, Pow2(k));
    x * Pow2(k)
  }

  function ShiftRight(x: nat, k: nat): (r: nat)
    ensures r <= x
  {
    DivLe(x, Pow2(k));
    x / Pow2(k)
  }

  function And(a: nat, b: nat): nat {
    if a == 0 || b == 0 then 0
    else 2 * And(a / 2, b / 2) + (if a % 2 == 1 && b % 2 == 1 then 1 else 0)
  }

  function Or(a: nat, b: nat): nat {
    if a == 0 then b
    else if b == 0 then a
    else 2 * Or(a / 2, b / 2) + (if a % 2 == 1 || b % 2 == 1 then 1 else 0)
  }

  function Xor(a: nat, b: nat): nat {
    if a == 0 then b
    else if b == 0 then a
    else 2 * Xor(a / 2, b / 2) + (if a % 2 != b % 2 then 1 else 0)
  }

  lemma MulMono(a: int, b: int, m: int)
    requires a <= b && m >= 0
    ensures a * m <= b * m
  {
  }

  lemma MulAssoc(a: int, b: int, c: int)
    ensures (a * b) * c == a * (b * c)
  {
  }

  lemma MulDist(a: int, b: int, c: int)
    ensures (a + b) * c == a * c + b * c
    ensures (a - b) * c == a * c - b * c
  {
  }

  /** Quotient and remainder are determined by the division equation. */
  lemma DivModUnique(x: int, m: int, q: int, r: int)
    requires m > 0 && x == q * m + r && 0 <= r < m
    ensures x / m == q && x % m == r
  {
    var q' := x / m;
    var d := q - q';
    assert d * m == q * m - q' * m;
    if d >= 1 {
      MulMono(1, d, m);
      assert false;
    } else if d <= -1 {
      MulMono(d, -1, m);
      assert false;
    }
  }

  lemma DivLe(x: nat, m: nat)
    requires m > 0
    ensures 0 <= x / m <= x
  {
    if x / m > x {
      MulMono(x + 1, x / m, m);
      MulMono(1, m, x + 1);
    }
  }

  /** Remainder modulo 2p from the remainder of the half. */
  lemma ModDouble(x: nat, p: nat)
    requires p > 0
    ensures x % (2 * p) == 2 * ((x / 2) % p) + x % 2
  {
    var q, r := (x / 2) / p, (x / 2) % p;
    assert q * (2 * p) == 2 * (q * p);
    DivModUnique(x, 2 * p, q, 2 * r + x % 2);
  }

  lemma ScaleRemainder(x: nat, q: nat, r: nat, p: nat, h: nat)
    requires p > 0 && x == q * h + r && r < h
    ensures p * h > 0
    ensures x * p % (p * h) == r * p
  {
    MulMono(1, h, p);
    MulMono(r, h - 1, p);
    MulMono(0, r, p);
    MulDist(h, 1, p);
    MulDist(q * h, r, p);
    MulAssoc(q, h, p);
    var u, v, z := p * h, r * p, x * p;
    assert h * p == u;
    assert z == q * u + v;
    DivModUnique(z, u, q, v);
  }

  lemma {:induction false} Pow2Add(a: nat, b: nat)
    ensures Pow2(a + b) == Pow2(a) * Pow2(b)
  {
    if a > 0 {
      Pow2Add(a - 1, b);
      assert Pow2(a + b) == 2 * Pow2(a - 1 + b);
      MulAssoc(2, Pow2(a - 1), Pow2(b));
    }
  }

  lemma Pow2Step(k: nat)
    ensures Pow2(k + 1) == 2 * Pow2(k)
  {
  }

  lemma Pow2Words()
    ensures Pow2(8) == 0x100 && Pow2(16) == 0x1_0000 && Pow2(31) == 0x8000_0000
    ensures Pow2(32) == 0x1_0000_0000
    ensures Pow2(62) == 0x4000_0000_0000_0000 && Pow2(63) == 0x8000_0000_0000_0000
    ensures Pow2(64) == 0x1_0000_0000_0000_0000
  {
    assert Pow2(8) == 0x100;
    Pow2Add(8, 8);
    Pow2Add(16, 16);
    Pow2Add(32, 32);
  }

  lemma {:induction false} Pow2Mono(a: nat, b: nat)
    requires a <= b
    ensures Pow2(a) <= Pow2(b)
  {
    if a < b { Pow2Mono(a, b - 1); }
  }

  /** x & (2^k - 1) is x mod 2^k. */
  lemma {:induction false} AndMask(x: nat, k: nat)
    ensures And(x, Pow2(k) - 1) == x % Pow2(k)
  {
    hide And;
    if k == 0 {
      MaskStep(x, 1);
    } else {
      var p := Pow2(k - 1);
      AndMask(x / 2, k - 1);
      ModDouble(x, p);
      MaskStep(x, p);
    }
  }

  /** One bit of an and with the mask 2p - 1. */
  lemma MaskStep(x: nat, p: nat)
    requires p > 0
    ensures And(x, 2 * p - 1) == 2 * And(x / 2, p - 1) + x % 2
    ensures And(x, 0) == 0
  {
    hide Pow2;
    var m := 2 * p - 1;
    assert m / 2 == p - 1 && m % 2 == 1;
    AndHalf(x, m);
  }

  /** The defining equation of And also holds when an operand is zero. */
  lemma {:induction false} AndHalf(a: nat, b: nat)
    ensures And(a, b) == 2 * And(a / 2, b / 2) + (if a % 2 == 1 && b % 2 == 1 then 1 else 0)
  {
  }

  /** A mask with a low zero bit only sees the upper half. */
  lemma AndDouble(x: nat, n: nat)
    ensures And(x, 2 * n) == 2 * And(x / 2, n)
  {
    var m := 2 * n;
    assert m / 2 == n && m % 2 == 0;
    AndHalf(x, m);
  }

  lemma {:induction false} OrComm(a: nat, b: nat)
    ensures Or(a, b) == Or(b, a)
  {
    if a != 0 && b != 0 { OrComm(a / 2, b / 2); }
  }

  lemma ShiftLeftValue(x: nat, k: nat)
    ensures ShiftLeft(x, k) == x * Pow2(k)
  {
  }

  lemma ShiftRightValue(x: nat, k: nat)
    ensures ShiftRight(x, k) == x / Pow2(k)
  {
  }

  lemma ShiftLeftStep(x: nat, k: nat)
    ensures ShiftLeft(x, k + 1) == 2 * ShiftLeft(x, k)
  {
    var p := Pow2(k);
    assert x * (2 * p) == 2 * (x * p);
  }

  lemma {:induction false} OrHalf(a: nat, b: nat)
    ensures Or(a, b) == 2 * Or(a / 2, b / 2) + (if a % 2 == 1 || b % 2 == 1 then 1 else 0)
  {
  }

  lemma OrDouble(a: nat, l: nat)
    ensures Or(2 * a, l) == 2 * Or(a, l / 2) + l % 2
  {
    var x := 2 * a;
    assert x / 2 == a && x % 2 == 0;
    OrHalf(x, l);
  }

  lemma OrZero(x: nat)
    ensures Or(x, 0) == x
  {
  }

  /** Or-ing a multiple of 2^k with a value below 2^k is addition. */
  lemma {:induction false} OrShifted(h: nat, l: nat, k: nat)
    requires l < Pow2(k)
    ensures Or(ShiftLeft(h, k), l) == ShiftLeft(h, k) + l
    ensures Or(l, ShiftLeft(h, k)) == ShiftLeft(h, k) + l
  {
    hide ShiftLeft, Or;
    var x := ShiftLeft(h, k);
    OrComm(x, l);
    if k > 0 {
      ShiftLeftStep(h, k - 1);
      OrShifted(h, l / 2, k - 1);
      OrDouble(ShiftLeft(h, k - 1), l);
    } else {
      OrZero(x);
    }
  }

  lemma {:induction false} OrBound(a: nat, b: nat, k: nat)
    requires a < Pow2(k) && b < Pow2(k)
    ensures Or(a, b) < Pow2(k)
  {
    if a != 0 && b != 0 { OrBound(a / 2, b / 2, k - 1); }
  }

  lemma {:induction false} AndBound(a: nat, b: nat)
    ensures And(a, b) <= a
  {
    if a != 0 && b != 0 { AndBound(a / 2, b / 2); }
  }

  lemma {:induction false} XorZero(a: nat)
    ensures Xor(a, 0) == a && Xor(0, a) == a
  {
  }

  /** Xor with k ones is the complement within k bits. */
  lemma {:induction false} XorOnes(x: nat, k: nat)
    requires x < Pow2(k)
    ensures Xor(x, Pow2(k) - 1) == Pow2(k) - 1 - x
  {
    hide Xor;
    if k == 0 {
      XorZero(0);
    } else {
      XorOnes(x / 2, k - 1);
      XorStep(x, Pow2(k - 1));
    }
  }

  lemma XorStep(x: nat, p: nat)
    requires p > 0
    ensures Xor(x, 2 * p - 1) == 2 * Xor(x / 2, p - 1) + (1 - x % 2)
  {
    var m := 2 * p - 1;
    assert m / 2 == p - 1 && m % 2 == 1;
    XorHalf(x, m);
  }

  lemma XorHalf(a: nat, b: nat)
    ensures Xor(a, b) == 2 * Xor(a / 2, b / 2) + (if a % 2 != b % 2 then 1 else 0)
  {
  }
}
