/** The decimal conversions of 64-bit integers: repeated division, base-10^7 limbs, digit by
    digit parsing, and the byte array of decimalStringToHash64. */
module Decimal {
  import opened Bits
  import opened Common
  import opened Doubles
  import opened Js
  import opened Varints
  import opened Arith

  // ------------------------------------------------------------ decimal numerals

  function Digit(d: nat): char
    requires d < 10
  {
    '0' + d as char
  }

  /** The decimal numeral of n without leading zeros: String(n). */
  function Numeral(n: nat): (s: string)
    ensures |s| >= 1
  {
    if n < 10 then [Digit(n)] else Numeral(n / 10) + [Digit(n % 10)]
  }

  predicate IsDigit(c: char) { '0' <= c <= '9' }

  predicate AllDigits(s: string) { forall i :: 0 <= i < |s| ==> IsDigit(s[i]) }

  function DigitValue(c: char): int { c as int - 48 }

  /** The number that a string of digits stands for; the empty one is 0. */
  function NumberOf(s: string): int {
    if s == [] then 0 else 10 * NumberOf(s[..|s| - 1]) + DigitValue(s[|s| - 1])
  }

  lemma {:induction false} NumeralReads(n: nat)
    ensures AllDigits(Numeral(n)) && NumberOf(Numeral(n)) == n
  {
    if n >= 10 {
      NumeralReads(n / 10);
      var s := Numeral(n);
      assert s[..|s| - 1] == Numeral(n / 10);
    } else {
      assert Numeral(n)[..0] == [];
    }
  }

  /** A numeral has no leading zero, and the digits are the usual ones. */
  lemma {:induction false} NumeralCanonical(n: nat)
    ensures Numeral(n)[0] == '0' <==> n == 0
  {
    if n >= 10 { NumeralCanonical(n / 10); }
  }

  lemma DigitsAre(d: nat)
    requires d < 10
    ensures Digit(d) == "0123456789"[d] && DigitValue(Digit(d)) == d && IsDigit(Digit(d))
    ensures Numeral(d) == [Digit(d)] && Numeral(9876) == "9876"
  {
    assert Numeral(98) == "98";
  }

  // ------------------------------------------------------------ UInt64.toString, fromString

  /** String(n), but nothing for 0. */
  function Significant(n: nat): string { if n == 0 then "" else Numeral(n) }

  lemma LastDigit(n: nat, a: string)
    requires n > 0
    ensures Significant(n / 10) + (Numeral(n % 10) + a) == Significant(n) + a
  {
    if n < 10 {
      assert Significant(0) + (Numeral(n) + a) == Numeral(n) + a;
    } else {
      SeqAssoc(Numeral(n / 10), [Digit(n % 10)], a);
    }
  }

  /** jspb.arith.UInt64.prototype.toString */
  method ToString(n: UInt64) returns (a: string)
    ensures a == Numeral(n.Value())
  {
    hide UInt64.Value, Numeral;
    a := "";
    var b := n;
    assert Significant(n.Value()) + "" == Significant(n.Value());
    while !b.Zero()
      invariant Significant(b.Value()) + a == Significant(n.Value())
      decreases b.Value()
    {
      ZeroValue(b);
      LastDigit(b.Value(), a);
      var qr := Div(b, 10);
      LowOnly(qr.value.1);
      a := Numeral(qr.value.1.lo) + a;
      b := qr.value.0;
    }
    ZeroValue(b);
    assert "" + a == a;
    if a == "" {
      ZeroNumeral();
      a := "0";
    }
  }

  lemma LowOnly(x: UInt64)
    requires x.Value() < 10
    ensures x.lo == x.Value()
  {
  }

  lemma ZeroNumeral()
    ensures Numeral(0) == "0"
  {
  }

  lemma {:induction false} NumberOfNat(s: string)
    requires AllDigits(s)
    ensures NumberOf(s) >= 0
    decreases |s|
  {
    if s != [] { NumberOfNat(s[..|s| - 1]); }
  }

  /** Multiplying and adding modulo 2^64. */
  lemma WrapDigit(x: nat, c: nat)
    ensures (x % TWO64 * 10 % TWO64 + c) % TWO64 == (10 * x + c) % TWO64
  {
    var q, r := x / TWO64, x % TWO64;
    var q', r' := 10 * r / TWO64, 10 * r % TWO64;
    assert 10 * x + c == (10 * q + q') * TWO64 + (r' + c);
  }

  /** jspb.arith.UInt64.fromString: null if and only if some character is not a digit. */
  method FromString(a: string) returns (r: Option<UInt64>)
    ensures r.Some? <==> AllDigits(a)
    ensures r.None? <==> exists i :: 0 <= i < |a| && !('0' <= a[i] <= '9')
    ensures r.Some? ==> r.value.Value() == NumberOf(a) % TWO64
  {
    hide UInt64.Value, UInt64.Add, NumberOf;
    var b, c := UInt64(0, 0), UInt64(0, 0);
    EmptyNumber();
    assert a[..0] == "";
    for d := 0 to |a|
      invariant AllDigits(a[..d]) && b.Value() == NumberOf(a[..d]) % TWO64 && c.hi == 0
    {
      if '0' > a[d] || '9' < a[d] { return None; }
      var e := DigitValue(a[d]);
      NumberSnoc(a, d);
      c := c.(lo := e);
      LowValue(c);
      var m := Mul(b, 10);
      AddValue(m, c);
      WrapDigit(NumberOf(a[..d]), e);
      b := m.Add(c);
    }
    assert a[..|a|] == a;
    r := Some(b);
  }

  lemma EmptyNumber()
    ensures NumberOf("") == 0 && UInt64(0, 0).Value() == 0
  {
  }

  lemma LowValue(c: UInt64)
    requires c.hi == 0
    ensures c.Value() == c.lo
  {
  }

  lemma NumberSnoc(a: string, d: nat)
    requires d < |a| && AllDigits(a[..d]) && IsDigit(a[d])
    ensures AllDigits(a[..d + 1]) && NumberOf(a[..d]) >= 0
    ensures NumberOf(a[..d + 1]) == 10 * NumberOf(a[..d]) + DigitValue(a[d])
  {
    NumberOfNat(a[..d]);
    assert a[..d + 1][..d] == a[..d];
  }

  // ------------------------------------------------------------ base-10^7 limbs

  function Pow10(k: nat): (p: nat)
    ensures p > 0
  {
    if k == 0 then 1 else 10 * Pow10(k - 1)
  }

  /** The last k digits of n. */
  function Padded(n: nat, k: nat): (s: string)
    ensures |s| == k
  {
    if k == 0 then "" else Padded(n / 10, k - 1) + [Digit(n % 10)]
  }

  /** x followed by the k digits of y is x * 10^k + y. */
  lemma {:induction false} NumeralShift(x: nat, y: nat, k: nat)
    requires x > 0 && y < Pow10(k)
    ensures 0 <= x * Pow10(k) && Numeral(x * Pow10(k) + y) == Numeral(x) + Padded(y, k)
    decreases k
  {
    hide Numeral;
    MulMono(1, x, Pow10(k));
    if k == 0 {
      assert Numeral(x) + "" == Numeral(x);
    } else {
      NumeralShift(x, y / 10, k - 1);
      MulAssoc(x, 10, Pow10(k - 1));
      assert Pow10(k) == 10 * Pow10(k - 1);
      var z := x * Pow10(k - 1);
      assert x * Pow10(k) == 10 * z;
      NumeralUnfold(10 * z + y, z + y / 10, y % 10);
      SeqAssoc(Numeral(x), Padded(y / 10, k - 1), [Digit(y % 10)]);
    }
  }

  lemma NumeralUnfold(n: nat, m: nat, d: nat)
    requires n == 10 * m + d && d < 10 && n >= 10
    ensures Numeral(n) == Numeral(m) + [Digit(d)]
  {
    assert n / 10 == m && n % 10 == d;
  }

  function Zeros(k: nat): (s: string)
    ensures |s| == k
  {
    seq(k, _ => '0')
  }

  /** "0000000".slice(a.length) + a */
  lemma {:induction false} PaddedIs(n: nat, k: nat)
    requires n < Pow10(k)
    ensures |Significant(n)| <= k && Zeros(k - |Significant(n)|) + Significant(n) == Padded(n, k)
    decreases k
  {
    if k > 0 {
      PaddedIs(n / 10, k - 1);
      if n == 0 {
        assert Significant(0) == "" && Digit(0) == '0';
        assert Zeros(k) == Zeros(k - 1) + ['0'];
      } else {
        var a := Significant(n / 10);
        LastDigit(n, "");
        assert Significant(n) == a + [Digit(n % 10)];
        SeqAssoc(Zeros(k - 1 - |a|), a, [Digit(n % 10)]);
      }
    }
  }

  /** The inner function c of joinUnsignedDecimalString. */
  function Limb(a: nat, pad: bool): string
    requires a < 10_000_000
  {
    var s := Significant(a);
    PaddedIs(a, 7);
    if pad then Zeros(7 - |s|) + s else s
  }

  /** 16777215 & (a >>> 24 | b << 8), a & 16777215 and b >> 16 & 65535: the 24, 24 and 16 bits
      of the number. */
  lemma Limbs(lo: u32, hi: u32)
    ensures var d := BitAnd(Shr(BitOr(Shr(lo, 24), Shl(hi, 8)), 0), 0xFF_FFFF);
            d == lo / 0x100_0000 + hi % 0x1_0000 * 0x100
    ensures BitAnd(lo, 0xFF_FFFF) == lo % 0x100_0000
    ensures BitAnd(Sar(hi, 16), 0xFFFF) == hi / 0x1_0000
  {
    hide BitAnd, BitOr, Shl, Shr, Pow2, Sar;
    Powers();
    SmallPowers();
    MaskValue(lo, 24);
    OrShl(lo / 0x100_0000, hi, 8);
    ShrZero(BitOr(Shr(lo, 24), Shl(hi, 8)));
    MaskValue(Shr(BitOr(Shr(lo, 24), Shl(hi, 8)), 0), 24);
    MiddleLimb(lo / 0x100_0000, hi);
    HighLimb(hi);
  }

  lemma MiddleLimb(c: nat, hi: u32)
    requires c < 0x100
    ensures (c + hi % 0x100_0000 * 0x100) % 0x100_0000 == c + hi % 0x1_0000 * 0x100
  {
    var p: int, x: int := hi / 0x100_0000, hi % 0x100_0000;
    var y, z := x / 0x1_0000, x % 0x1_0000;
    DivModUnique(hi, 0x1_0000, p * 0x100 + y, z);
    DivModUnique(c + x * 0x100, 0x100_0000, y, c + z * 0x100);
  }

  lemma HighLimb(hi: u32)
    ensures BitAnd(Sar(hi, 16), 0xFFFF) == hi / 0x1_0000
  {
    hide BitAnd, Pow2;
    Powers();
    MaskValue(Sar(hi, 16), 16);
    var x := ToInt32(hi);
    assert x / 0x1_0000 % 0x1_0000 == hi / 0x1_0000;
  }

  /** jspb.utils.joinUnsignedDecimalString */
  function JoinUnsignedDecimalString(lo: u32, hi: u32): string {
    if 2097151 >= hi then Numeral(Rounded(Join(lo, hi)))
    else
      Limbs(lo, hi);
      var d := BitAnd(Shr(BitOr(Shr(lo, 24), Shl(hi, 8)), 0), 0xFF_FFFF);
      var b := BitAnd(Sar(hi, 16), 0xFFFF);
      PrintLimbs(BitAnd(lo, 0xFF_FFFF) + 6777216 * d + 6710656 * b, d + 8147497 * b, 2 * b)
  }

  /** Its carries: a, d and b count units of 1, 10^7 and 10^14. */
  function PrintLimbs(a: nat, d: nat, b: nat): string
    requires a < 1_000_000_000_000_000 && d < 1_000_000_000_000 && b < 1_000_000
  {
    var d' := if 10_000_000 <= a then d + a / 10_000_000 else d;
    var a' := if 10_000_000 <= a then a % 10_000_000 else a;
    var b' := if 10_000_000 <= d' then b + d' / 10_000_000 else b;
    var d'' := if 10_000_000 <= d' then d' % 10_000_000 else d';
    Limb(b', false) + Limb(d'', b' != 0) + Limb(a', true)
  }

  lemma PrintLimbsNumeral(a: nat, d: nat, b: nat)
    requires a < 1_000_000_000_000_000 && d < 1_000_000_000_000 && 0 < b < 1_000_000
    ensures PrintLimbs(a, d, b) == Numeral(b * 100_000_000_000_000 + d * 10_000_000 + a)
  {
    hide Limb, Numeral;
    var q, r := a / 10_000_000, a % 10_000_000;
    var t, u := (d + q) / 10_000_000, (d + q) % 10_000_000;
    LimbNumeral(b + t, u, r);
    assert (b + t) * 100_000_000_000_000 + u * 10_000_000 + r == b * 100_000_000_000_000 + d * 10_000_000 + a;
  }

  lemma LimbSum(lo: u32, hi: u32)
    ensures Join(lo, hi) == lo % 0x100_0000 + 0x100_0000 * (lo / 0x100_0000 + hi % 0x1_0000 * 0x100)
                            + 0x1_0000_0000_0000 * (hi / 0x1_0000)
  {
  }

  /** Three limbs printed in a row are the numeral of the number. */
  lemma LimbNumeral(b: nat, d: nat, a: nat)
    requires 0 < b < 10_000_000 && d < 10_000_000 && a < 10_000_000
    ensures Limb(b, false) + Limb(d, true) + Limb(a, true)
         == Numeral(b * 100_000_000_000_000 + d * 10_000_000 + a)
  {
    hide Numeral, Padded;
    TenMillion();
    PaddedIs(d, 7);
    PaddedIs(a, 7);
    NumeralShift(b, d, 7);
    NumeralShift(b * 10_000_000 + d, a, 7);
  }

  lemma TenMillion()
    ensures Pow10(7) == 10_000_000
  {
  }

  /** 2^24 is 1 * 10^7 + 6777216 and 2^48 is 2 * 10^14 + 8147497 * 10^7 + 6710656. */
  lemma LimbsToDecimal(x: nat, d: nat, b: nat)
    requires x < 0x100_0000 && d < 0x100_0000 && 0 < b < 0x1_0000
    ensures PrintLimbs(x + 6777216 * d + 6710656 * b, d + 8147497 * b, 2 * b)
         == Numeral(x + 0x100_0000 * d + 0x1_0000_0000_0000 * b)
  {
    hide PrintLimbs, Numeral;
    PrintLimbsNumeral(x + 6777216 * d + 6710656 * b, d + 8147497 * b, 2 * b);
  }

  /** The low 24, the middle 24 and the high 16 bits. */
  ghost function Bits24(lo: u32, hi: u32): (nat, nat, nat) {
    (lo % 0x100_0000, lo / 0x100_0000 + hi % 0x1_0000 * 0x100, hi / 0x1_0000)
  }

  lemma Bits24Value(lo: u32, hi: u32)
    ensures var (x, d, b) := Bits24(lo, hi);
            && x < 0x100_0000 && d < 0x100_0000 && b < 0x1_0000 && (hi > 2097151 ==> b > 0)
            && Join(lo, hi) == x + 0x100_0000 * d + 0x1_0000_0000_0000 * b
  {
    LimbSum(lo, hi);
  }

  lemma JoinUnsignedUnfold(lo: u32, hi: u32)
    requires hi > 2097151
    ensures var (x, d, b) := Bits24(lo, hi);
            && x < 0x100_0000 && d < 0x100_0000 && b < 0x1_0000
            && JoinUnsignedDecimalString(lo, hi) == PrintLimbs(x + 6777216 * d + 6710656 * b, d + 8147497 * b, 2 * b)
  {
    hide PrintLimbs, Numeral, BitAnd, BitOr, Shr, Shl, Sar, Join;
    Bits24Value(lo, hi);
    Limbs(lo, hi);
  }

  /** Below 2^53 the sum is exact. */
  lemma JoinUnsignedSmall(lo: u32, hi: u32)
    requires hi <= 2097151
    ensures JoinUnsignedDecimalString(lo, hi) == Numeral(Join(lo, hi))
  {
    hide PrintLimbs, Numeral, BitAnd, BitOr, Shr, Shl, Sar, Rounded, IsDouble;
    SafeIsDouble(Join(lo, hi));
    ToDoubleIs(Join(lo, hi));
  }

  /** The fast form agrees with the simple one on all 64-bit numbers. */
  lemma JoinUnsignedIsNumeral(lo: u32, hi: u32)
    ensures JoinUnsignedDecimalString(lo, hi) == Numeral(Join(lo, hi))
  {
    hide *;
    if hi <= 2097151 {
      JoinUnsignedSmall(lo, hi);
    } else {
      JoinUnsignedUnfold(lo, hi);
      Bits24Value(lo, hi);
      var (x, d, b) := Bits24(lo, hi);
      LimbsToDecimal(x, d, b);
    }
  }
}
