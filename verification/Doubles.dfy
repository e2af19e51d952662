/** JavaScript numbers that are integers: doubles, which above 2^53 have gaps. */
module Doubles {
  import opened Bits

  const TWO53 := 0x20_0000_0000_0000

  /** The distance between neighbouring doubles from v up: 53 bits of v are kept. */
  function Ulp(v: nat): (u: nat)
    ensures u > 0
  {
    if v < TWO53 then 1 else 2 * Ulp(v / 2)
  }

  function RoundTo(v: nat, u: nat): (r: nat)
    requires u > 0
  {
    var q, r := v / u, v % u;
    MulMono(0, q, u);
    if 2 * r < u || (2 * r == u && q % 2 == 0) then q * u else q * u + u
  }

  /** The nearest double, the even one of two. */
  function Rounded(v: nat): nat { RoundTo(v, Ulp(v)) }

  /** The double that an integer result is stored as. */
  function ToDouble(x: int): int {
    if x < 0 then 0 - Rounded(0 - x) else Rounded(x)
  }

  predicate IsDouble(x: int) {
    var v := if x < 0 then 0 - x else x;
    v % Ulp(v) == 0
  }

  lemma RoundToIs(v: nat, u: nat)
    requires u > 0
    ensures 2 * RoundTo(v, u) <= 2 * v + u && 2 * v <= 2 * RoundTo(v, u) + u
    ensures RoundTo(v, u) == v <==> v % u == 0
  {
    var q := v / u;
    MulMono(0, q, u);
    assert v == q * u + v % u;
  }

  /** Rounding goes to the nearest multiple of the gap, and to the even one of two. */
  lemma RoundedIs(v: nat, k: nat)
    requires 2 * (k * Ulp(v)) <= 2 * v + Ulp(v) && 2 * v <= 2 * (k * Ulp(v)) + Ulp(v)
    requires 2 * v == 2 * (k * Ulp(v)) + Ulp(v) || 2 * (k * Ulp(v)) == 2 * v + Ulp(v) ==> k % 2 == 0
    ensures Rounded(v) == k * Ulp(v)
  {
    hide Ulp;
    NearestIs(v, Ulp(v), k);
  }

  lemma NearestIs(v: nat, u: nat, k: nat)
    requires u > 0 && 2 * (k * u) <= 2 * v + u && 2 * v <= 2 * (k * u) + u
    requires 2 * v == 2 * (k * u) + u || 2 * (k * u) == 2 * v + u ==> k % 2 == 0
    ensures RoundTo(v, u) == k * u
  {
    var z := k * u;
    if z <= v {
      if v - z < u {
        DivModUnique(v, u, k, v - z);
      }
    } else {
      MulDist(k, 1, u);
      MulMono(0, 0, u);
      DivModUnique(v, u, k - 1, v - (z - u));
    }
  }

  /** Rounding is off by at most half a gap, and exact for doubles only. */
  lemma ToDoubleIs(x: int)
    ensures ToDouble(x) == x <==> IsDouble(x)
    ensures var v := if x < 0 then 0 - x else x;
            2 * (ToDouble(x) - x) <= Ulp(v) && 2 * (x - ToDouble(x)) <= Ulp(v)
  {
    hide Ulp, RoundTo;
    var v := if x < 0 then 0 - x else x;
    RoundToIs(v, Ulp(v));
  }

  /** Up to 2^53 every integer is a double. */
  lemma SafeIsDouble(x: int)
    requires -0x20_0000_0000_0000 <= x <= 0x20_0000_0000_0000
    ensures IsDouble(x)
  {
    assert Ulp(TWO53) == 2 * Ulp(TWO53 / 2) == 2;
  }

  /** A rounded number is a double. */
  lemma ToDoubleIsDouble(x: int)
    ensures IsDouble(ToDouble(x))
  {
    var v := if x < 0 then 0 - x else x;
    if v < TWO53 {
      SafeIsDouble(x);
      ToDoubleIs(x);
    } else {
      var e := UlpPower(v);
      var u, q := Pow2(e), v / Pow2(e);
      hide Pow2, Ulp;
      var k := if Rounded(v) == q * u then q else q + 1;
      MulDist(q, 1, u);
      UlpScale(k, e);
      assert k * u == Rounded(v);
    }
  }

  /** From 2^53 on the gap is a power of two that leaves 53 bits. */
  lemma {:induction false} UlpPower(v: nat) returns (e: nat)
    requires v >= 0x10_0000_0000_0000
    ensures Ulp(v) == Pow2(e) && 0x10_0000_0000_0000 <= v / Pow2(e) < TWO53
  {
    if v < TWO53 {
      e := 0;
    } else {
      var d := UlpPower(v / 2);
      e := d + 1;
      HalfQuotient(v, Pow2(d));
    }
  }

  lemma HalfQuotient(v: nat, p: nat)
    requires p > 0
    ensures v / 2 / p == v / (2 * p)
  {
    var h := v / 2;
    var q, r := h / p, h % p;
    assert v == 2 * h + v % 2 && h == q * p + r;
    assert q * (2 * p) == 2 * (q * p);
    DivModUnique(v, 2 * p, q, 2 * r + v % 2);
  }

  /** k * 2^e is a double when k has at most 53 bits. */
  lemma {:induction false} UlpScale(k: nat, e: nat)
    requires 0x10_0000_0000_0000 <= k <= TWO53
    ensures 0 <= k * Pow2(e) && (k * Pow2(e)) % Ulp(k * Pow2(e)) == 0
  {
    MulMono(0, k, Pow2(e));
    UlpOfScaled(k, e);
    var c := if k < TWO53 then 1 else 2;
    SafeIsDouble(k);
    var p := Pow2(e);
    hide Pow2, Ulp;
    assert k * p == (k / c) * (c * p) by { MulAssoc(k / c, c, p); }
    DivModUnique(k * p, c * p, k / c, 0);
  }

  lemma {:induction false} UlpOfScaled(k: nat, e: nat)
    requires 0x10_0000_0000_0000 <= k <= TWO53
    ensures 0 <= k * Pow2(e) && Ulp(k * Pow2(e)) == (if k < TWO53 then 1 else 2) * Pow2(e)
  {
    MulMono(1, Pow2(e), k);
    if e > 0 {
      UlpOfScaled(k, e - 1);
      var p := Pow2(e - 1);
      MulMono(1, p, k);
      MulAssoc(k, p, 2);
      assert k * Pow2(e) == 2 * (k * p);
    } else {
      assert Ulp(TWO53) == 2 * Ulp(TWO53 / 2) == 2;
    }
  }
}
