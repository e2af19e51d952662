/** jspb.arith.UInt64: 64-bit arithmetic on two unsigned 32-bit halves. */
module Arith {
  import opened Bits
  import opened Common
  import opened Js
  import opened Varints

  const TWO64 := 0x1_0000_0000_0000_0000

  datatype UInt64 = UInt64(lo: u32, hi: u32) {

    function Value(): (v: nat)
      ensures v < TWO64
    {
      Join(lo, hi)
    }

    function Cmp(a: UInt64): int {
      if hi < a.hi || (hi == a.hi && lo < a.lo) then -1 else if hi == a.hi && lo == a.lo then 0 else 1
    }

    function RightShift(): UInt64 {
      UInt64(Shr(BitOr(Shr(lo, 1), Shl(BitAnd(hi, 1), 31)), 0), Shr(Shr(hi, 1), 0))
    }

    function LeftShift(): UInt64 {
      UInt64(Shr(Shl(lo, 1), 0), Shr(BitOr(Shl(hi, 1), Shr(lo, 31)), 0))
    }

    predicate Msb() { BitAnd(hi, 0x8000_0000) != 0 }

    predicate Zero() { 0 == lo && 0 == hi }

    function Add(a: UInt64): UInt64 {
      UInt64(Shr(Shr(BitAnd(lo + a.lo, 0xFFFF_FFFF), 0), 0),
             Shr(Shr(BitAnd(hi + a.hi, 0xFFFF_FFFF), 0) + (if 0x1_0000_0000 <= lo + a.lo then 1 else 0), 0))
    }

    function Sub(a: UInt64): UInt64 {
      UInt64(Shr(Shr(BitAnd(lo - a.lo, 0xFFFF_FFFF), 0), 0),
             Shr(Shr(BitAnd(hi - a.hi, 0xFFFF_FFFF), 0) - (if 0 > lo - a.lo then 1 else 0), 0))
    }
  }

  lemma Mask32(x: int)
    ensures Shr(BitAnd(x, 0xFFFF_FFFF), 0) == x % 0x1_0000_0000
  {
    hide And, Pow2;
    Pow2Words();
    AndMask(ToUint32(x), 32);
    ShrZero(BitAnd(x, 0xFFFF_FFFF));
  }

  lemma CmpValue(x: UInt64, y: UInt64)
    ensures x.Cmp(y) == if x.Value() < y.Value() then -1 else if x.Value() == y.Value() then 0 else 1
  {
  }

  lemma ZeroValue(x: UInt64)
    ensures x.Zero() <==> x.Value() == 0
  {
  }

  lemma MsbValue(x: UInt64)
    ensures x.Msb() <==> x.Value() >= 0x8000_0000_0000_0000
  {
    hide BitAnd;
    SignBit(x.hi);
  }

  /** Carrying from the low half to the high one. */
  lemma CarryHalves(l: int, h: int)
    ensures (h % 0x1_0000_0000 + l / 0x1_0000_0000) % 0x1_0000_0000 * 0x1_0000_0000 + l % 0x1_0000_0000
         == (h * 0x1_0000_0000 + l) % TWO64
  {
    var q, r := l / 0x1_0000_0000, l % 0x1_0000_0000;
    var p, t := h / 0x1_0000_0000, h % 0x1_0000_0000;
    var u, w := (t + q) / 0x1_0000_0000, (t + q) % 0x1_0000_0000;
    assert l == q * 0x1_0000_0000 + r;
    assert h == p * 0x1_0000_0000 + t;
    assert t + q == u * 0x1_0000_0000 + w;
    DivModUnique(h * 0x1_0000_0000 + l, TWO64, p + u, w * 0x1_0000_0000 + r);
  }

  lemma Carry(l: int)
    requires -0x1_0000_0000 < l < 0x2_0000_0000
    ensures l / 0x1_0000_0000 == if l < 0 then -1 else if l < 0x1_0000_0000 then 0 else 1
  {
  }

  /** Addition and subtraction wrap around at 2^64. */
  lemma AddValue(x: UInt64, y: UInt64)
    ensures x.Add(y).Value() == (x.Value() + y.Value()) % TWO64
  {
    hide BitAnd, Shr, ToUint32;
    var l, h := x.lo + y.lo, x.hi + y.hi;
    Mask32(l);
    Mask32(h);
    Carry(l);
    ShrMod(Shr(BitAnd(l, 0xFFFF_FFFF), 0));
    ShrMod(Shr(BitAnd(h, 0xFFFF_FFFF), 0) + l / 0x1_0000_0000);
    TwiceMod(l);
    CarryHalves(l, h);
    var z := x.Add(y);
    assert z.lo == l % 0x1_0000_0000 && z.hi == (h % 0x1_0000_0000 + l / 0x1_0000_0000) % 0x1_0000_0000;
    assert x.Value() + y.Value() == h * 0x1_0000_0000 + l;
  }

  lemma TwiceMod(x: int)
    ensures x % 0x1_0000_0000 % 0x1_0000_0000 == x % 0x1_0000_0000
  {
  }

  lemma ShrMod(x: int)
    ensures Shr(x, 0) == x % 0x1_0000_0000
  {
  }

  lemma SubValue(x: UInt64, y: UInt64)
    ensures x.Sub(y).Value() == (x.Value() - y.Value()) % TWO64
  {
    hide BitAnd, Shr, ToUint32;
    var l, h := x.lo - y.lo, x.hi - y.hi;
    Mask32(l);
    Mask32(h);
    Carry(l);
    ShrMod(Shr(BitAnd(l, 0xFFFF_FFFF), 0));
    ShrMod(Shr(BitAnd(h, 0xFFFF_FFFF), 0) + l / 0x1_0000_0000);
    TwiceMod(l);
    CarryHalves(l, h);
    var z := x.Sub(y);
    assert z.lo == l % 0x1_0000_0000 && z.hi == (h % 0x1_0000_0000 + l / 0x1_0000_0000) % 0x1_0000_0000;
    assert x.Value() - y.Value() == h * 0x1_0000_0000 + l;
  }

  lemma RightShiftValue(x: UInt64)
    ensures x.RightShift().Value() == x.Value() / 2
  {
    hide BitAnd, BitOr, Shl, Shr, Pow2, ToUint32;
    Masks(x.hi);
    ShrOne(x.lo);
    ShrOne(x.hi);
    ShrMod(x.hi / 2);
    OrBit(x.lo / 2, x.hi % 2);
    HalfHalves(x.lo, x.hi);
  }

  lemma HalfHalves(lo: u32, hi: u32)
    ensures hi / 2 * 0x1_0000_0000 + (lo / 2 + hi % 2 * 0x8000_0000) == Join(lo, hi) / 2
    ensures hi / 2 % 0x1_0000_0000 == hi / 2
  {
    assert hi == 2 * (hi / 2) + hi % 2;
  }

  /** lo >>> 1 | bit << 31 */
  lemma OrBit(c: nat, bit: nat)
    requires c < 0x8000_0000 && bit < 2
    ensures Shr(BitOr(c, Shl(bit, 31)), 0) == c + bit * 0x8000_0000
  {
    hide BitOr, Shl, Pow2, Shr;
    PowersOne();
    OrShl(c, bit, 31);
    ShrZero(BitOr(c, Shl(bit, 31)));
    assert bit % Pow2(1) == bit;
  }

  lemma PowersOne()
    ensures Pow2(1) == 2 && Pow2(31) == 0x8000_0000
  {
    SmallPowers();
    Powers();
  }

  lemma LeftShiftValue(x: UInt64)
    ensures x.LeftShift().Value() == 2 * x.Value() % TWO64
  {
    hide BitAnd, BitOr, Shl, Shr, Pow2, ToUint32;
    ShlOne(x.lo);
    ShrTop(x.lo);
    OrTwice(x.hi, x.lo / 0x8000_0000);
    DoubleHalves(x.lo, x.hi);
  }

  /** hi << 1 | bit */
  lemma OrTwice(hi: u32, bit: nat)
    requires bit < 2
    ensures Shr(BitOr(Shl(hi, 1), bit), 0) == bit + hi % 0x8000_0000 * 2
  {
    hide BitOr, Shl, Pow2, Shr;
    PowersOne();
    OrShl(bit, hi, 1);
    ShrZero(BitOr(Shl(hi, 1), bit));
  }

  lemma DoubleHalves(lo: u32, hi: u32)
    ensures (lo / 0x8000_0000 + hi % 0x8000_0000 * 2) * 0x1_0000_0000 + 2 * lo % 0x1_0000_0000
         == 2 * Join(lo, hi) % TWO64
  {
    var p, t := hi / 0x8000_0000, hi % 0x8000_0000;
    var q, r := lo / 0x8000_0000, 2 * lo % 0x1_0000_0000;
    assert hi == p * 0x8000_0000 + t;
    assert 2 * lo == q * 0x1_0000_0000 + r;
    DivModUnique(2 * Join(lo, hi), TWO64, p, (q + t * 2) * 0x1_0000_0000 + r);
  }

  lemma ShlOne(x: u32)
    ensures Shr(Shl(x, 1), 0) == 2 * x % 0x1_0000_0000
  {
    hide ShiftLeft;
    SmallPowers();
    ShiftLeftValue(x, 1);
  }

  lemma ShrTop(x: u32)
    ensures Shr(x, 31) == x / 0x8000_0000
  {
    hide Pow2;
    Powers();
  }

  // ------------------------------------------------------------ multiplication

  /** The exact 64-bit product of two 32-bit numbers, from 16-bit halves. */
  method Mul32x32(a: u32, b: u32) returns (r: UInt64)
    ensures 0 <= a * b && r.Value() == a * b
  {
    hide BitAnd, Shr;
    Halves(a);
    Halves(b);
    var c: int, a1: int, d: int, e: int := BitAnd(a, 0xFFFF), Shr(a, 16), BitAnd(b, 0xFFFF), Shr(b, 16);
    ghost var cd, ce, ad, ae := c * d, c * e, a1 * d, a1 * e;
    SmallProduct(c, d);
    SmallProduct(c, e);
    SmallProduct(a1, d);
    SmallProduct(a1, e);
    ProductParts(a, b, a1, c, e, d);
    Halves(ce);
    Halves(ad);
    var low := c * d + 0x1_0000 * BitAnd(c * e, 0xFFFF) + 0x1_0000 * BitAnd(a1 * d, 0xFFFF);
    var high := a1 * e + Shr(c * e, 16) + Shr(a1 * d, 16);
    ghost var product := high * 0x1_0000_0000 + low;
    assert product == a * b;
    while 0x1_0000_0000 <= low
      invariant low >= 0 && high >= 0 && high * 0x1_0000_0000 + low == product
      decreases low
    {
      low := low - 0x1_0000_0000;
      high := high + 1;
    }
    ProductBound(a, b);
    ShrMod(low);
    ShrMod(high);
    r := UInt64(Shr(low, 0), Shr(high, 0));
  }

  lemma Halves(x: u32)
    ensures BitAnd(x, 0xFFFF) == x % 0x1_0000 && Shr(x, 16) == x / 0x1_0000
  {
    hide BitAnd, Pow2;
    Powers();
    MaskValue(x, 16);
  }

  lemma SmallProduct(x: nat, y: nat)
    requires x < 0x1_0000 && y < 0x1_0000
    ensures 0 <= x * y < 0x1_0000_0000
  {
    MulMono(0, x, y);
    MulMono(x, 0xFFFF, y);
  }

  lemma ProductBound(a: u32, b: u32)
    ensures 0 <= a * b < TWO64
  {
    MulMono(0, a, b);
    MulMono(a, 0xFFFF_FFFF, b);
  }

  lemma ProductParts(a: nat, b: nat, a1: nat, a0: nat, b1: nat, b0: nat)
    requires a == a1 * 0x1_0000 + a0 && b == b1 * 0x1_0000 + b0
    ensures a * b == a1 * b1 * 0x1_0000_0000 + (a0 * b1 + a1 * b0) * 0x1_0000 + a0 * b0
  {
    MulDist(a1 * 0x1_0000, a0, b);
    MulDist(b1 * 0x1_0000, b0, a1 * 0x1_0000);
    MulDist(b1 * 0x1_0000, b0, a0);
  }

  /** Multiplication by a 32-bit number modulo 2^64. */
  method Mul(x: UInt64, a: u32) returns (r: UInt64)
    ensures 0 <= x.Value() * a && r.Value() == x.Value() * a % TWO64
  {
    var b := Mul32x32(x.lo, a);
    var c := Mul32x32(x.hi, a);
    LowHalf(c);
    c := c.(hi := c.lo);
    c := c.(lo := 0);
    MulParts(x.lo, x.hi, a);
    hide UInt64.Add;
    AddValue(b, c);
    r := b.Add(c);
  }

  lemma LowHalf(c: UInt64)
    ensures c.lo == c.Value() % 0x1_0000_0000
  {
  }

  lemma MulParts(lo: u32, hi: u32, a: u32)
    ensures 0 <= lo * a && 0 <= hi * a && 0 <= Join(lo, hi) * a
    ensures Join(lo, hi) * a % TWO64 == (lo * a + hi * a % 0x1_0000_0000 * 0x1_0000_0000) % TWO64
  {
    MulMono(0, lo, a);
    MulMono(0, hi, a);
    MulDist(hi * 0x1_0000_0000, lo, a);
    var p, q := hi * a, lo * a;
    assert hi * 0x1_0000_0000 * a == p * 0x1_0000_0000;
    WrapHigh(p, q);
  }

  lemma WrapHigh(p: nat, q: nat)
    ensures (p * 0x1_0000_0000 + q) % TWO64 == (q + p % 0x1_0000_0000 * 0x1_0000_0000) % TWO64
  {
    assert p == p / 0x1_0000_0000 * 0x1_0000_0000 + p % 0x1_0000_0000;
  }

  // ------------------------------------------------------------ division

  ghost function Product(x: nat, y: nat): nat {
    MulMono(0, x, y);
    x * y
  }

  /** The partial quotient and remainder while the divisor, shifted left k times, is shifted
      back; k == -1 when the loop is done. */
  ghost predicate Dividing(n: nat, a: nat, k: int, q: nat, r: nat, shifted: nat, unit: nat) {
    && n == Product(q, a) + r
    && if k < 0 then k == -1 && unit == 0 && r < a
       else unit == Pow2(k) && shifted == Product(a, Pow2(k)) && r < 2 * shifted
  }

  lemma DivideStart(n: nat, a: nat, k: nat, shifted: nat)
    requires shifted == Product(a, Pow2(k)) && shifted >= 0x8000_0000_0000_0000 && n < TWO64
    ensures Dividing(n, a, k, 0, n, shifted, Pow2(k))
  {
    hide Pow2;
    assert Product(0, a) == 0;
  }

  /** Taking p multiples. */
  lemma TakeMultiples(n: nat, a: nat, q: nat, r: nat, p: nat)
    requires a > 0 && n == Product(q, a) + r && Product(a, p) <= r
    ensures n == Product(q + p, a) + (r - Product(a, p)) && q + p <= n
  {
    MulDist(q, p, a);
    MulMono(1, a, q + p);
  }

  lemma HalveMultiples(a: nat, k: nat)
    ensures k == 0 ==> Pow2(k) / 2 == 0 && Product(a, Pow2(k)) == a
    ensures k > 0 ==> Pow2(k) / 2 == Pow2(k - 1) && Product(a, Pow2(k)) == 2 * Product(a, Pow2(k - 1))
  {
    if k > 0 {
      Pow2Step(k - 1);
      var p := Pow2(k - 1);
      hide Pow2;
      MulAssoc(a, p, 2);
    }
  }

  /** Taking one multiple when it fits, and halving. */
  lemma DivideStep(n: nat, a: nat, k: nat, q: nat, r: nat, shifted: nat)
    requires a > 0 && n < TWO64 && Dividing(n, a, k, q, r, shifted, Pow2(k))
    ensures shifted <= r ==> q + Pow2(k) < TWO64
                             && Dividing(n, a, k - 1, q + Pow2(k), r - shifted, shifted / 2, Pow2(k) / 2)
    ensures shifted > r ==> Dividing(n, a, k - 1, q, r, shifted / 2, Pow2(k) / 2)
  {
    hide Pow2, Product;
    HalveMultiples(a, k);
    if shifted <= r { TakeMultiples(n, a, q, r, Pow2(k)); }
  }

  /** Quotient and remainder. */
  ghost predicate Divides(n: nat, a: nat, q: nat, r: nat) {
    a > 0 && q == n / a && r == n % a
  }

  lemma DivideDone(n: nat, a: nat, k: int, q: nat, r: nat, shifted: nat, unit: UInt64)
    requires a > 0 && -1 <= k && Dividing(n, a, k, q, r, shifted, unit.Value()) && unit.Zero()
    ensures Divides(n, a, q, r)
  {
    hide Pow2, Product, UInt64.Value, UInt64.Zero, Divides;
    ZeroValue(unit);
    DividesBy(n, a, q, r);
  }

  lemma DividesBy(n: nat, a: nat, q: nat, r: nat)
    requires n == Product(q, a) + r && r < a
    ensures Divides(n, a, q, r)
  {
    DivModUnique(n, a, q, r);
  }

  /** One turn of the second loop. */
  lemma DivideTurn(n: nat, divisor: nat, k: int, b: UInt64, c: UInt64, a: UInt64, d: UInt64)
    requires divisor > 0 && n < TWO64 && -1 <= k && !d.Zero()
    requires Dividing(n, divisor, k, b.Value(), c.Value(), a.Value(), d.Value())
    ensures k >= 0
    ensures var a', d' := a.RightShift(), d.RightShift();
            if 0 >= a.Cmp(c) then
              Dividing(n, divisor, k - 1, b.Add(d).Value(), c.Sub(a).Value(), a'.Value(), d'.Value())
            else
              Dividing(n, divisor, k - 1, b.Value(), c.Value(), a'.Value(), d'.Value())
  {
    hide UInt64.Add, UInt64.Sub, UInt64.RightShift, UInt64.Cmp, UInt64.Zero, UInt64.Value, Dividing, Pow2, Product;
    ZeroValue(d);
    DividingUnit(n, divisor, k, b.Value(), c.Value(), a.Value(), d.Value());
    DivideStep(n, divisor, k, b.Value(), c.Value(), a.Value());
    CmpValue(a, c);
    RightShiftValue(a);
    RightShiftValue(d);
    if 0 >= a.Cmp(c) {
      AddExact(b, d);
      SubExact(c, a);
    }
  }

  lemma ShiftedOnce(a: nat, k: nat)
    requires Product(a, Pow2(k)) < 0x8000_0000_0000_0000 && a > 0
    ensures Product(a, Pow2(k + 1)) == 2 * Product(a, Pow2(k)) && Pow2(k) <= Product(a, Pow2(k))
    ensures Product(a, Pow2(k)) > 0 && Pow2(k + 1) == 2 * Pow2(k)
  {
    Pow2Step(k);
    hide Pow2;
    var p := Pow2(k);
    MulAssoc(a, p, 2);
    MulMono(1, a, p);
  }

  lemma AddExact(x: UInt64, y: UInt64)
    requires x.Value() + y.Value() < TWO64
    ensures x.Add(y).Value() == x.Value() + y.Value()
  {
    hide *;
    AddValue(x, y);
  }

  lemma SubExact(x: UInt64, y: UInt64)
    requires x.Value() >= y.Value()
    ensures x.Sub(y).Value() == x.Value() - y.Value()
  {
    hide *;
    SubValue(x, y);
  }

  lemma LeftShiftExact(x: UInt64)
    requires x.Value() < 0x8000_0000_0000_0000
    ensures x.LeftShift().Value() == 2 * x.Value()
  {
    hide UInt64.Value, UInt64.LeftShift;
    LeftShiftValue(x);
  }

  /** Shift-and-subtract division by a 32-bit number; both loops end. */
  method Div(n: UInt64, divisor: u32) returns (r: Option<(UInt64, UInt64)>)
    ensures r == None <==> divisor == 0
    ensures r.Some? ==> Divides(n.Value(), divisor, r.value.0.Value(), r.value.1.Value())
  {
    if divisor == 0 { return None; }
    hide *;
    var b, c := UInt64(0, 0), UInt64(n.lo, n.hi);
    var a, d := UInt64(divisor, 0), UInt64(1, 0);
    ghost var k: nat := 0;
    InitialValues(divisor);
    while !a.Msb()
      invariant a.Value() == Product(divisor, Pow2(k)) && d.Value() == Pow2(k)
      decreases TWO64 - a.Value()
    {
      MsbValue(a);
      ShiftedOnce(divisor, k);
      LeftShiftExact(a);
      LeftShiftExact(d);
      a, d := a.LeftShift(), d.LeftShift();
      k := k + 1;
    }
    MsbValue(a);
    DivideStart(n.Value(), divisor, k, a.Value());
    ghost var i: int := k;
    while !d.Zero()
      invariant -1 <= i && Dividing(n.Value(), divisor, i, b.Value(), c.Value(), a.Value(), d.Value())
      decreases i
    {
      DivideTurn(n.Value(), divisor, i, b, c, a, d);
      if 0 >= a.Cmp(c) {
        b := b.Add(d);
        c := c.Sub(a);
      }
      a := a.RightShift();
      d := d.RightShift();
      i := i - 1;
    }
    DivideDone(n.Value(), divisor, i, b.Value(), c.Value(), a.Value(), d);
    r := Some((b, c));
  }

  lemma InitialValues(a: u32)
    ensures UInt64(a, 0).Value() == Product(a, Pow2(0)) == a && UInt64(1, 0).Value() == Pow2(0) == 1
    ensures UInt64(0, 0).Value() == 0
  {
  }

  lemma DividingUnit(n: nat, a: nat, k: int, q: nat, r: nat, shifted: nat, unit: nat)
    requires -1 <= k && Dividing(n, a, k, q, r, shifted, unit)
    ensures unit == 0 <==> k == -1
    ensures k >= 0 ==> unit == Pow2(k)
  {
  }
}
