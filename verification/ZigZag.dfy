/** Zigzag encoding of signed integers (Protocol Buffers encoding guide, section "Signed
    Integers"), on 32 bits, on two halves and on numbers. */
module ZigZag {
  import opened Bits
  import opened Doubles
  import opened Js
  import opened Varints

  function Zig(v: int): nat {
    if v >= 0 then 2 * v else -2 * v - 1
  }

  function Zag(n: nat): int {
    if n % 2 == 0 then n / 2 else -(n / 2) - 1
  }

  lemma ZigZagInverse(v: int, n: nat)
    ensures Zag(Zig(v)) == v && Zig(Zag(n)) == n
  {
    if v >= 0 { DivModUnique(2 * v, 2, v, 0); } else { DivModUnique(-2 * v - 1, 2, -1 - v, 1); }
    assert n == 2 * (n / 2) + n % 2;
  }

  /** x ^ d where d is 0 or -1: unchanged, or complemented. */
  lemma XorSign(x: int, d: int)
    requires d == 0 || d == -1
    ensures ToUint32(BitXor(x, d)) == if d == 0 then ToUint32(x) else 0xFFFF_FFFF - ToUint32(x)
  {
    hide Xor, Pow2;
    Pow2Words();
    if d == 0 {
      XorZero(ToUint32(x));
    } else {
      XorOnes(ToUint32(x), 32);
      assert ToUint32(-1) == 0xFFFF_FFFF;
    }
  }

  lemma SarSign(x: int)
    requires -0x8000_0000 <= x < 0x1_0000_0000
    ensures Sar(x, 31) == if ToUint32(x) < 0x8000_0000 then 0 else -1
  {
    hide Pow2;
    Powers();
  }

  // ------------------------------------------------------------ 32 bits

  /** writeZigzagVarint32 */
  function ToZigzag32(a: int): u32 {
    Shr(BitXor(Shl(a, 1), Sar(a, 31)), 0)
  }

  /** readZigzagVarint32 */
  function FromZigzag32(a: int): int {
    BitXor(Shr(a, 1), 0 - BitAnd(a, 1))
  }

  lemma Zigzag32(a: int, n: u32)
    ensures -0x8000_0000 <= a < 0x8000_0000 ==> ToZigzag32(a) == Zig(a) == if a >= 0 then 2 * a else -2 * a - 1
    ensures FromZigzag32(n) == Zag(n) == if n % 2 == 0 then n / 2 else -(n / 2) - 1
  {
    hide BitXor, Shl, Sar, BitAnd, Shr, ToUint32;
    if -0x8000_0000 <= a < 0x8000_0000 {
      ToZigzag32Value(a);
    }
    FromZigzag32Value(n);
  }

  lemma ToZigzag32Value(a: int)
    requires -0x8000_0000 <= a < 0x8000_0000
    ensures ToZigzag32(a) == Zig(a)
  {
    hide BitXor, Shl, Sar, Shr, ToUint32;
    SarSign(a);
    ToUint32Is(a);
    XorSign(Shl(a, 1), Sar(a, 31));
    ShlTwice(a);
    ShrZero(BitXor(Shl(a, 1), Sar(a, 31)));
  }

  lemma ShlTwice(a: int)
    ensures ToUint32(Shl(a, 1)) == 2 * a % 0x1_0000_0000
  {
    hide ShiftLeft;
    SmallPowers();
    ShiftLeftValue(ToUint32(a), 1);
    DoubleMod(a);
  }

  lemma DoubleMod(a: int)
    ensures 2 * (a % 0x1_0000_0000) % 0x1_0000_0000 == 2 * a % 0x1_0000_0000
  {
    var q, r := a / 0x1_0000_0000, a % 0x1_0000_0000;
    var q', r' := 2 * r / 0x1_0000_0000, 2 * r % 0x1_0000_0000;
    DivModUnique(2 * a, 0x1_0000_0000, 2 * q + q', r');
  }

  lemma FromZigzag32Value(n: u32)
    ensures FromZigzag32(n) == Zag(n)
  {
    hide BitXor, BitAnd, Shr, ToUint32;
    Masks(n);
    ShrOne(n);
    XorSign(n / 2, 0 - n % 2);
    ToUint32Is(n / 2);
    XorRange(n / 2, 0 - n % 2);
  }

  /** The result of ^ is the signed reading of its 32 bits. */
  lemma XorRange(a: int, b: int)
    ensures var u := ToUint32(BitXor(a, b)); BitXor(a, b) == if u < 0x8000_0000 then u else u - 0x1_0000_0000
  {
    hide Xor;
  }

  // ------------------------------------------------------------ 64 bits in halves

  /** jspb.utils.toZigzag64; the caller makes the halves unsigned. */
  function ToZigzag64(a: u32, b: u32): (u32, u32) {
    var d := Sar(b, 31);
    (Shr(BitXor(Shl(a, 1), d), 0), Shr(BitXor(BitOr(Shl(b, 1), Shr(a, 31)), d), 0))
  }

  /** jspb.utils.fromZigzag64 */
  function FromZigzag64(a: u32, b: u32): (u32, u32) {
    var d := 0 - BitAnd(a, 1);
    (Shr(BitXor(BitOr(Shr(a, 1), Shl(b, 31)), d), 0), Shr(BitXor(Shr(b, 1), d), 0))
  }

  lemma ToZigzag64Value(a: u32, b: u32)
    ensures var (lo, hi) := ToZigzag64(a, b); Join(lo, hi) == Zig(Signed64(Join(a, b)))
  {
    hide BitXor, Shl, Sar, Shr, BitOr, ToUint32;
    var d := Sar(b, 31);
    SarSign(b);
    ToUint32Is(b);
    ToUint32Is(a);
    ShlTwice(a);
    DoubleHigh(a, b);
    XorSign(Shl(a, 1), d);
    XorSign(BitOr(Shl(b, 1), Shr(a, 31)), d);
    ShrZero(BitXor(Shl(a, 1), d));
    ShrZero(BitXor(BitOr(Shl(b, 1), Shr(a, 31)), d));
    DoubleSum(a, b);
  }

  /** b << 1 | a >>> 31 */
  lemma DoubleHigh(a: u32, b: u32)
    ensures ToUint32(BitOr(Shl(b, 1), Shr(a, 31))) == a / 0x8000_0000 + b % 0x8000_0000 * 2
  {
    hide BitOr, Shl, Pow2;
    SmallPowers();
    Powers();
    OrShl(a / 0x8000_0000, b, 1);
  }

  lemma DoubleSum(a: u32, b: u32)
    ensures (a / 0x8000_0000 + b % 0x8000_0000 * 2) * 0x1_0000_0000 + 2 * a % 0x1_0000_0000
         == if b < 0x8000_0000 then 2 * Join(a, b) else 2 * Join(a, b) - 0x1_0000_0000_0000_0000
  {
    assert 2 * a == a / 0x8000_0000 * 0x1_0000_0000 + 2 * a % 0x1_0000_0000;
    assert b % 0x8000_0000 == if b < 0x8000_0000 then b else b - 0x8000_0000;
  }

  lemma FromZigzag64Value(a: u32, b: u32)
    ensures var (lo, hi) := FromZigzag64(a, b); Signed64(Join(lo, hi)) == Zag(Join(a, b))
  {
    hide BitXor, Shl, BitAnd, Shr, BitOr, ToUint32;
    var d := 0 - BitAnd(a, 1);
    Masks(a);
    ShrOne(b);
    ToUint32Is(b / 2);
    HalveLow(a, b);
    XorSign(BitOr(Shr(a, 1), Shl(b, 31)), d);
    XorSign(b / 2, d);
    ShrZero(BitXor(BitOr(Shr(a, 1), Shl(b, 31)), d));
    ShrZero(BitXor(b / 2, d));
    HalfSum(a, b);
  }

  /** a >>> 1 | b << 31 */
  lemma HalveLow(a: u32, b: u32)
    ensures ToUint32(BitOr(Shr(a, 1), Shl(b, 31))) == a / 2 + b % 2 * 0x8000_0000
  {
    hide BitOr, Shl, Pow2;
    SmallPowers();
    Powers();
    OrShl(a / 2, b, 31);
  }

  lemma HalfSum(a: u32, b: u32)
    ensures b / 2 * 0x1_0000_0000 + (a / 2 + b % 2 * 0x8000_0000) == Join(a, b) / 2
    ensures Join(a, b) % 2 == a % 2
  {
    assert b == 2 * (b / 2) + b % 2;
    assert a == 2 * (a / 2) + a % 2;
  }

  /** The two directions undo each other on all 64-bit pairs. */
  lemma Zigzag64RoundTrip(a: u32, b: u32)
    ensures var (lo, hi) := ToZigzag64(a, b); FromZigzag64(lo, hi) == (a, b)
    ensures var (lo, hi) := FromZigzag64(a, b); ToZigzag64(lo, hi) == (a, b)
  {
    hide ToZigzag64, FromZigzag64, Zig, Zag;
    var (x, y) := ToZigzag64(a, b);
    ToZigzag64Value(a, b);
    FromZigzag64Value(x, y);
    ZigZagInverse(Signed64(Join(a, b)), 0);
    var (p, q) := FromZigzag64(x, y);
    SameHalves(p, q, a, b);
    var (z, w) := FromZigzag64(a, b);
    FromZigzag64Value(a, b);
    ToZigzag64Value(z, w);
    ZigZagInverse(0, Join(a, b));
    var (s, t) := ToZigzag64(z, w);
    SameHalves(s, t, a, b);
  }

  lemma SameHalves(a: u32, b: u32, c: u32, d: u32)
    requires Signed64(Join(a, b)) == Signed64(Join(c, d))
    ensures a == c && b == d
  {
  }

  // ------------------------------------------------------------ numbers

  /** jspb.utils.splitUint64 */
  function SplitUint64(a: nat): (u32, u32) {
    var b := Shr(a, 0);
    (b, Shr((a - b) / 0x1_0000_0000, 0))
  }

  /** jspb.utils.splitZigzag64: twice the absolute value, minus one for negatives. */
  function SplitZigzag64(a: int): (u32, u32) {
    var m: nat := 2 * (if a < 0 then 0 - a else a);
    var (lo, hi) := SplitUint64(m);
    if 0 > a then
      if 0 == lo then
        if 0 == hi then (0xFFFF_FFFF, 0xFFFF_FFFF) else (0xFFFF_FFFF, hi - 1)
      else (lo - 1, hi)
    else (lo, hi)
  }

  lemma SplitUint64Value(a: nat)
    ensures var (lo, hi) := SplitUint64(a); Join(lo, hi) == a % 0x1_0000_0000_0000_0000
  {
    hide Shr, ToUint32;
    ShrZero(a);
    ToUint32Is(a);
    var h := (a - a % 0x1_0000_0000) / 0x1_0000_0000;
    ShrZero(h);
    ToUint32Is(h);
    assert a == h * 0x1_0000_0000 + a % 0x1_0000_0000;
    assert h == h / 0x1_0000_0000 * 0x1_0000_0000 + h % 0x1_0000_0000;
    var p, l := h % 0x1_0000_0000, a % 0x1_0000_0000;
    DivModUnique(a, 0x1_0000_0000_0000_0000, h / 0x1_0000_0000, p * 0x1_0000_0000 + l);
  }

  /** The number form agrees for every signed 64-bit integer, the smallest included, whose
      double wraps to 0 before the borrow. */
  lemma SplitZigzag64Value(a: int)
    requires -0x8000_0000_0000_0000 <= a < 0x8000_0000_0000_0000
    ensures var (lo, hi) := SplitZigzag64(a); Join(lo, hi) == Zig(a)
  {
    hide SplitUint64;
    var m: nat := 2 * (if a < 0 then 0 - a else a);
    SplitUint64Value(m);
  }

  /** jspb.utils.joinZigzag64 */
  function JoinZigzag64(a: u32, b: u32): int {
    var (lo, hi) := FromZigzag64(a, b);
    JoinInt64(lo, hi)
  }

  /** Exactly the doubles, that is every JavaScript number of 64 bits, come back. */
  lemma ZigzagNumberRoundTrip(a: int)
    requires -0x8000_0000_0000_0000 <= a < 0x8000_0000_0000_0000
    ensures var (lo, hi) := SplitZigzag64(a); JoinZigzag64(lo, hi) == a <==> IsDouble(a)
  {
    hide SplitZigzag64, FromZigzag64, JoinInt64, Join, Zig, Zag, ToDouble, IsDouble;
    var (lo, hi) := SplitZigzag64(a);
    SplitZigzag64Value(a);
    FromZigzag64Value(lo, hi);
    var (x, y) := FromZigzag64(lo, hi);
    JoinInt64Value(x, y);
    ZigZagInverse(a, 0);
    ToDoubleIs(a);
  }
}
