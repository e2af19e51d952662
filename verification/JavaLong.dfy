/** Java's 64-bit `long` and 32-bit `int`: two's complement, wrapping, shift counts taken
    modulo the word size. */
module JavaLong {
  import opened Bits

  type long = x: int | -0x8000_0000_0000_0000 <= x < 0x8000_0000_0000_0000

  function Unsigned(x: long): (u: nat)
    ensures u < 0x1_0000_0000_0000_0000
  {
    if x >= 0 then x else x + 0x1_0000_0000_0000_0000
  }

  function Signed(u: nat): (x: long)
    requires u < 0x1_0000_0000_0000_0000
  {
    if u < 0x8000_0000_0000_0000 then u else u - 0x1_0000_0000_0000_0000
  }

  lemma WrapIntIs(x: int)
    ensures var u := x % 0x1_0000_0000;
            exists k :: x == (if u < 0x8000_0000 then u else u - 0x1_0000_0000) + k * 0x1_0000_0000
  {
    var q, u := x / 0x1_0000_0000, x % 0x1_0000_0000;
    assert x == (if u < 0x8000_0000 then u else u - 0x1_0000_0000) + (if u < 0x8000_0000 then q else q + 1) * 0x1_0000_0000;
  }

  /** The low 32 bits, as a Java `int` (the cast `(int)` and every int operation). */
  function WrapInt(x: int): (r: int)
    ensures -0x8000_0000 <= r < 0x8000_0000
    ensures -0x8000_0000 <= x < 0x8000_0000 ==> r == x
    ensures exists k :: x == r + k * 0x1_0000_0000
  {
    WrapIntIs(x);
    var u := x % 0x1_0000_0000;
    if u < 0x8000_0000 then u else u - 0x1_0000_0000
  }

  /** The low 64 bits, as a Java `long`. */
  function WrapLong(x: int): (r: long)
    ensures -0x8000_0000_0000_0000 <= x < 0x8000_0000_0000_0000 ==> r == x
  {
    Signed(x % 0x1_0000_0000_0000_0000)
  }

  /** Java's int division truncates toward zero. */
  function TruncDiv(a: int, b: int): int
    requires b > 0
  {
    if a >= 0 then a / b else -(-a / b)
  }

  function Add(a: long, b: long): long { WrapLong(a + b) }

  function Not(x: long): long { -1 - x }

  function Shl(x: long, k: nat): long { Signed(ShiftLeft(Unsigned(x), k % 64) % 0x1_0000_0000_0000_0000) }

  function Ushr(x: long, k: nat): long { Signed(ShiftRight(Unsigned(x), k % 64)) }

  function LongOr(a: long, b: long): long {
    Pow2Words();
    OrBound(Unsigned(a), Unsigned(b), 64);
    Signed(Or(Unsigned(a), Unsigned(b)))
  }

  lemma UnsignedOr(a: long, b: long)
    ensures Unsigned(LongOr(a, b)) == Or(Unsigned(a), Unsigned(b))
  {
    Pow2Words();
    OrBound(Unsigned(a), Unsigned(b), 64);
  }

  function LongAnd(a: long, b: long): long {
    AndBound(Unsigned(a), Unsigned(b));
    Signed(And(Unsigned(a), Unsigned(b)))
  }
}
