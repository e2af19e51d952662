/** JavaScript's bitwise operators: operands are taken modulo 2^32, results are signed 32-bit
    integers (unsigned for >>>). */
module Js {
  import opened Bits

  type byte = x: nat | x < 256
  type u32 = x: nat | x < 0x1_0000_0000

  function ToUint32(x: int): (u: u32)
    ensures 0 <= x < 0x1_0000_0000 ==> u == x
  {
    x % 0x1_0000_0000
  }

  function ToInt32(x: int): (r: int)
    ensures -0x8000_0000 <= r < 0x8000_0000
    ensures -0x8000_0000 <= x < 0x8000_0000 ==> r == x
    ensures ToUint32(r) == ToUint32(x)
  {
    var u := ToUint32(x);
    if u < 0x8000_0000 then u else u - 0x1_0000_0000
  }

  function BitAnd(a: int, b: int): int { ToInt32(And(ToUint32(a), ToUint32(b))) }

  function BitOr(a: int, b: int): int { ToInt32(Or(ToUint32(a), ToUint32(b))) }

  function BitXor(a: int, b: int): int { ToInt32(Xor(ToUint32(a), ToUint32(b))) }

  function BitNot(a: int): int { -1 - ToInt32(a) }

  /** a << k */
  function Shl(a: int, k: nat): int
    requires k < 32
  {
    ToInt32(ShiftLeft(ToUint32(a), k))
  }

  /** a >> k */
  function Sar(a: int, k: nat): int
    requires k < 32
  {
    ToInt32(a) / Pow2(k)
  }

  /** a >>> k */
  function Shr(a: int, k: nat): (r: u32)
    requires k < 32
    ensures r == ToUint32(a) / Pow2(k)
  {
    ShiftRight(ToUint32(a), k)
  }

  lemma ModOfMod(x: int, a: nat, b: nat)
    requires a > 0 && b > 0
    ensures a * b > 0 && (x % (a * b)) % a == x % a
  {
    MulMono(1, b, a);
    var q, r := x / (a * b), x % (a * b);
    var q', r' := r / a, r % a;
    MulAssoc(q, b, a);
    MulDist(q * b, q', a);
    DivModUnique(x, a, q * b + q', r');
  }

  /** x & (2^k - 1) is x mod 2^k, for negative x too. */
  lemma MaskValue(x: int, k: nat)
    requires k < 32
    ensures BitAnd(x, Pow2(k) - 1) == x % Pow2(k)
  {
    hide And, Pow2;
    Pow2Words();
    Pow2Mono(k, 31);
    Pow2Add(k, 32 - k);
    ModOfMod(x, Pow2(k), Pow2(32 - k));
    AndMask(ToUint32(x), k);
    assert ToUint32(Pow2(k) - 1) == Pow2(k) - 1;
  }

  /** The masks the codec uses. */
  lemma Masks(x: int)
    ensures BitAnd(x, 1) == x % 2 && BitAnd(x, 7) == x % 8 && BitAnd(x, 15) == x % 16
    ensures BitAnd(x, 31) == x % 32 && BitAnd(x, 63) == x % 64 && BitAnd(x, 127) == x % 128
    ensures BitAnd(x, 255) == x % 256
  {
    hide BitAnd;
    MaskValue(x, 1); MaskValue(x, 3); MaskValue(x, 4);
    MaskValue(x, 5); MaskValue(x, 6); MaskValue(x, 7); MaskValue(x, 8);
    SmallPowers();
  }

  lemma SmallPowers()
    ensures Pow2(0) == 1 && Pow2(1) == 2 && Pow2(2) == 4 && Pow2(3) == 8 && Pow2(4) == 16 && Pow2(5) == 32
    ensures Pow2(6) == 64 && Pow2(7) == 128 && Pow2(8) == 256
  {
  }

  lemma Powers()
    ensures Pow2(10) == 0x400 && Pow2(12) == 0x1000 && Pow2(14) == 0x4000 && Pow2(16) == 0x1_0000 && Pow2(18) == 0x4_0000
    ensures Pow2(21) == 0x20_0000 && Pow2(24) == 0x100_0000 && Pow2(25) == 0x200_0000
    ensures Pow2(28) == 0x1000_0000 && Pow2(31) == 0x8000_0000
  {
    SmallPowers();
    Pow2Add(8, 2); Pow2Add(8, 4); Pow2Add(8, 6); Pow2Add(8, 8); Pow2Add(16, 2); Pow2Add(18, 3);
    Pow2Add(16, 8); Pow2Add(24, 1); Pow2Add(24, 4);
    Pow2Words();
  }

  /** c | (v << k) adds the bits of v above the k bits of c; bits pushed past 2^32 are lost. */
  lemma OrShl(c: int, v: int, k: nat)
    requires k < 32 && ToUint32(c) < Pow2(k) && 0 <= v < 0x1_0000_0000
    ensures ToUint32(BitOr(c, Shl(v, k))) == ToUint32(c) + v % Pow2(32 - k) * Pow2(k)
    ensures ToUint32(BitOr(Shl(v, k), c)) == ToUint32(c) + v % Pow2(32 - k) * Pow2(k)
  {
    hide Or, Pow2, ShiftLeft;
    Pow2Words();
    ShiftWraps32(v, k);
    var w := v % Pow2(32 - k);
    ShiftLeftValue(w, k);
    OrShifted(w, ToUint32(c), k);
    assert ToUint32(Shl(v, k)) == ShiftLeft(w, k);
    Pow2Add(32 - k, k);
    PackBound(w, ToUint32(c), Pow2(32 - k), Pow2(k));
  }

  lemma PackBound(w: nat, c: nat, m: nat, p: nat)
    requires w < m && c < p
    ensures 0 <= w * p && w * p + c < m * p
  {
    MulMono(0, w, p);
    MulMono(w, m - 1, p);
    MulDist(m, 1, p);
  }

  lemma ShiftWraps32(x: nat, k: nat)
    requires k < 32
    ensures ShiftLeft(x, k) % 0x1_0000_0000 == ShiftLeft(x % Pow2(32 - k), k)
  {
    hide ShiftLeft, Pow2;
    var p, h := Pow2(k), Pow2(32 - k);
    Pow2Words();
    Pow2Add(k, 32 - k);
    ScaleRemainder(x, x / h, x % h, p, h);
    ShiftLeftValue(x, k);
    ShiftLeftValue(x % h, k);
  }

  /** Or-ing a multiple of 2^k with a value below 2^k is addition. */
  lemma OrSum(x: nat, c: nat, k: nat)
    requires k < 32 && c < Pow2(k) && x % Pow2(k) == 0 && x + c < 0x8000_0000
    ensures BitOr(x, c) == x + c && BitOr(c, x) == x + c
  {
    hide Or, Pow2, ShiftLeft, ToUint32, ToInt32;
    WholeShift(x, k);
    OrShifted(x / Pow2(k), c, k);
    assert ToUint32(x) == x && ToUint32(c) == c && ToInt32(x + c) == x + c;
  }

  lemma WholeShift(x: nat, k: nat)
    requires x % Pow2(k) == 0
    ensures ShiftLeft(x / Pow2(k), k) == x
  {
    hide Pow2;
    ShiftLeftValue(x / Pow2(k), k);
  }

  /** A shift that stays below 2^31 is multiplication. */
  lemma ShlSmall(v: nat, k: nat)
    requires k < 32 && v * Pow2(k) < 0x8000_0000 && v < 0x8000_0000
    ensures 0 <= v * Pow2(k) && Shl(v, k) == v * Pow2(k)
  {
    hide Pow2, ShiftLeft;
    MulMono(0, v, Pow2(k));
    ShiftLeftValue(v, k);
  }

  lemma ShrOne(x: u32)
    ensures Shr(x, 1) == x / 2
  {
    SmallPowers();
  }

  lemma SarSmall(x: int, k: nat)
    requires k < 32 && -0x8000_0000 <= x < 0x8000_0000
    ensures Sar(x, k) == x / Pow2(k)
  {
  }
}
