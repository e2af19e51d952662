/** Signed 64-bit integers as decimal strings: jspb.arith.Int64, joinSignedDecimalString, and
    the eight-byte hash strings. */
module Int64 {
  import opened Bits
  import opened Common
  import opened Js
  import opened Varints
  import opened Arith
  import opened Decimal

  // ------------------------------------------------------------ printing

  function SignedNumeral(x: int): string {
    if x < 0 then "-" + Numeral(0 - x) else Numeral(x)
  }

  /** jspb.utils.joinSignedDecimalString */
  function JoinSignedDecimalString(lo: u32, hi: u32): string {
    if BitAnd(hi, 0x8000_0000) != 0 then
      var a := Shr(BitNot(lo) + 1, 0);
      var b := Shr(BitNot(hi) + (if 0 == a then 1 else 0), 0);
      "-" + JoinUnsignedDecimalString(a, b)
    else JoinUnsignedDecimalString(lo, hi)
  }

  lemma JoinSignedIsNumeral(lo: u32, hi: u32)
    ensures JoinSignedDecimalString(lo, hi) == SignedNumeral(Signed64(Join(lo, hi)))
  {
    hide BitAnd, BitNot, Shr, JoinUnsignedDecimalString, Numeral, ToUint32;
    SignBit(hi);
    JoinUnsignedIsNumeral(lo, hi);
    var a := Shr(BitNot(lo) + 1, 0);
    var b := Shr(BitNot(hi) + (if 0 == a then 1 else 0), 0);
    NegateLow(lo);
    NotPlus(hi, if 0 == a then 1 else 0);
    JoinUnsignedIsNumeral(a, b);
  }

  lemma NotPlus(x: u32, c: nat)
    requires c <= 1
    ensures Shr(BitNot(x) + c, 0) == (0xFFFF_FFFF - x + c) % 0x1_0000_0000
  {
  }

  /** jspb.arith.Int64.prototype.toString */
  method ToString(x: UInt64) returns (s: string)
    ensures s == SignedNumeral(Signed64(x.Value()))
    ensures s == JoinSignedDecimalString(x.lo, x.hi)
  {
    hide BitAnd, UInt64.Sub, Numeral, JoinSignedDecimalString;
    SignBit(x.hi);
    JoinSignedIsNumeral(x.lo, x.hi);
    var a := 0 != BitAnd(x.hi, 0x8000_0000);
    var b := UInt64(x.lo, x.hi);
    if a {
      SubValue(UInt64(0, 0), b);
      b := UInt64(0, 0).Sub(b);
    }
    s := Decimal.ToString(b);
    s := (if a then "-" else "") + s;
    assert !a ==> s == Numeral(x.Value());
  }

  // ------------------------------------------------------------ reading

  /** An optional minus sign and digits only. */
  predicate IsSigned(a: string) {
    AllDigits(if |a| > 0 && a[0] == '-' then a[1..] else a)
  }

  function SignedNumber(a: string): int {
    if |a| > 0 && a[0] == '-' then 0 - NumberOf(a[1..]) else NumberOf(a)
  }

  /** The sign may only be a minus in front; the empty string is 0. */
  lemma SignedExamples()
    ensures IsSigned("-12") && SignedNumber("-12") == -12 && IsSigned("") && SignedNumber("") == 0
    ensures IsSigned("-") && SignedNumber("-") == 0 && !IsSigned("+1") && !IsSigned("1-") && !IsSigned("--1")
  {
    assert "-12"[1..] == "12" && "12"[..1] == "1" && "1"[..0] == "" && "-"[1..] == "";
    assert !IsDigit("+1"[0]) && !IsDigit("1-"[1]) && !IsDigit("--1"[1..][0]);
  }

  lemma SignedNumeralReads(x: int)
    ensures IsSigned(SignedNumeral(x)) && SignedNumber(SignedNumeral(x)) == x
  {
    hide Numeral, NumberOf;
    if x < 0 {
      NumeralReads(0 - x);
      assert SignedNumeral(x)[1..] == Numeral(0 - x);
    } else {
      NumeralReads(x);
    }
  }

  /** jspb.arith.Int64.fromString */
  method FromString(a: string) returns (r: Option<UInt64>)
    ensures r.Some? <==> IsSigned(a)
    ensures r.Some? ==> r.value.Value() == Wrap(SignedNumber(a))
  {
    hide UInt64.Sub, UInt64.Value, NumberOf;
    var b := 0 < |a| && '-' == a[0];
    r := Decimal.FromString(if b then a[1..] else a);
    if r.None? { return; }
    if b {
      var x := r.value;
      SubValue(UInt64(0, 0), x);
      EmptyNumber();
      NegateMod(NumberOf(a[1..]));
      r := Some(UInt64(0, 0).Sub(x));
    }
  }

  lemma NegateMod(n: int)
    ensures (0 - n % TWO64) % TWO64 == (0 - n) % TWO64
  {
    var q, r := n / TWO64, n % TWO64;
    assert n == q * TWO64 + r;
    AddMultiple(0 - q, 0 - r);
  }

  /** Printing and reading back is exact on all 64-bit numbers, signed and unsigned. */
  lemma PrintedReads(lo: u32, hi: u32)
    ensures var s := JoinSignedDecimalString(lo, hi); IsSigned(s) && Wrap(SignedNumber(s)) == Join(lo, hi)
    ensures var s := JoinUnsignedDecimalString(lo, hi); AllDigits(s) && NumberOf(s) == Join(lo, hi)
  {
    hide SignedNumeral, SignedNumber, IsSigned, JoinSignedDecimalString, JoinUnsignedDecimalString, Numeral, NumberOf;
    JoinSignedIsNumeral(lo, hi);
    SignedNumeralReads(Signed64(Join(lo, hi)));
    JoinUnsignedIsNumeral(lo, hi);
    NumeralReads(Join(lo, hi));
  }

  // ------------------------------------------------------------ hashes

  /** A number modulo 2^64. */
  function Wrap(x: int): (r: nat)
    ensures r < TWO64
  {
    x % TWO64
  }

  function Pow256(k: nat): (p: nat)
    ensures p > 0
  {
    if k == 0 then 1 else 256 * Pow256(k - 1)
  }

  /** Little-endian bytes. */
  function LittleEndian(e: seq<byte>): (v: nat) {
    if e == [] then 0
    else
      var n := |e| - 1;
      MulMono(0, e[n], Pow256(n));
      LittleEndian(e[..n]) + e[n] * Pow256(n)
  }

  lemma {:induction false} LittleEndianBound(e: seq<byte>)
    ensures LittleEndian(e) < Pow256(|e|)
  {
    if e != [] {
      var n := |e| - 1;
      LittleEndianBound(e[..n]);
      MulMono(e[n], 255, Pow256(n));
    }
  }

  /** Byte k is the k-th digit to base 256. */
  lemma {:induction false} LittleEndianDigit(e: seq<byte>, k: nat)
    requires k < |e|
    ensures LittleEndian(e) / Pow256(k) % 256 == e[k]
    decreases |e|
  {
    var n := |e| - 1;
    LittleEndianBound(e[..n]);
    if k == n {
      DivModUnique(LittleEndian(e), Pow256(n), e[n], LittleEndian(e[..n]));
    } else {
      LittleEndianDigit(e[..n], k);
      PowSplit(k + 1, n - (k + 1));
      HighDigits(LittleEndian(e[..n]), e[n], Pow256(n - (k + 1)), Pow256(k));
      assert Pow256(k + 1) == 256 * Pow256(k);
    }
  }

  lemma {:induction false} PowSplit(a: nat, b: nat)
    ensures Pow256(a + b) == Pow256(a) * Pow256(b)
  {
    if a > 0 {
      PowSplit(a - 1, b);
      assert Pow256(a + b) == 256 * Pow256(a - 1 + b);
      MulAssoc(256, Pow256(a - 1), Pow256(b));
    }
  }

  /** Multiples of 256 p do not show in the digit at p. */
  lemma HighDigits(x: nat, d: nat, h: nat, p: nat)
    requires p > 0
    ensures 0 <= d * ((256 * p) * h) && (x + d * ((256 * p) * h)) / p % 256 == x / p % 256
  {
    var q, r := x / p, x % p;
    MulMono(0, d, h);
    var m: nat := d * h;
    MulMono(0, m, 256 * p);
    MulAssoc(d, h, 256 * p);
    MulComm(h, 256 * p);
    MulAssoc(m, 256, p);
    MulDist(256 * m, q, p);
    DivModUnique(x + m * (256 * p), p, 256 * m + q, r);
    DivModUnique(256 * m + q, 256, m + q / 256, q % 256);
  }

  lemma MulComm(a: int, b: int)
    ensures a * b == b * a
  {
  }

  lemma PowWords()
    ensures Pow256(4) == 0x1_0000_0000 && Pow256(8) == TWO64
  {
    assert Pow256(4) == 0x1_0000_0000;
  }

  lemma LittleEndianNext(e: seq<byte>, c: nat)
    requires c < |e|
    ensures 0 <= e[c] * Pow256(c) && LittleEndian(e[..c + 1]) == LittleEndian(e[..c]) + e[c] * Pow256(c)
  {
    assert e[..c + 1][..c] == e[..c];
    MulMono(0, e[c], Pow256(c));
  }

  /** Bytes from c on that stay the same contribute the same. */
  lemma {:induction false} SameTail(a: seq<byte>, b: seq<byte>, c: nat)
    requires c <= |a| == |b| && forall k :: c <= k < |a| ==> a[k] == b[k]
    ensures LittleEndian(a) - LittleEndian(a[..c]) == LittleEndian(b) - LittleEndian(b[..c])
    decreases |a|
  {
    if c < |a| {
      var n := |a| - 1;
      assert a[..n][..c] == a[..c] && b[..n][..c] == b[..c];
      SameTail(a[..n], b[..n], c);
    } else {
      assert a[..c] == a && b[..c] == b;
    }
  }

  /** One byte of multiplying by m with a carry. */
  lemma MultiplyByte(low: nat, low': nat, p: nat, m: nat, old_: byte, carry: nat, x: nat)
    requires low' + carry * p == m * low + x && 0 <= carry * p
    ensures var b := m * old_ + carry;
            0 <= m * old_ && low' + b % 256 * p + b / 256 * (256 * p) == m * (low + old_ * p) + x
  {
    MulMono(0, m, old_);
    var b := m * old_ + carry;
    var q, r := b / 256, b % 256;
    assert b == 256 * q + r;
    MulDist(256 * q, r, p);
    MulAssoc(256, q, p);
    MulDist(m * old_, carry, p);
    MulAssoc(m, old_, p);
    assert b * p == 256 * q * p + r * p;
    assert q * (256 * p) == 256 * (q * p);
    assert m * (low + old_ * p) == m * low + m * (old_ * p);
  }

  /** The bytes below c hold the new number's, and `carry` what is left for byte c. */
  ghost predicate Multiplying(was: seq<byte>, e: seq<byte>, c: nat, m: nat, x: nat, carry: nat)
    requires c <= |was| == |e|
  {
    && carry < 0x11_0000 && 0 <= carry * Pow256(c) && 0 <= m * LittleEndian(was[..c])
    && LittleEndian(e[..c]) + carry * Pow256(c) == m * LittleEndian(was[..c]) + x
  }

  lemma MultiplyStart(e: seq<byte>, m: nat, x: nat)
    requires x < 0x11_0000
    ensures Multiplying(e, e, 0, m, x, x)
  {
    assert e[..0] == [];
  }

  lemma MultiplyStep(was: seq<byte>, e: seq<byte>, c: nat, m: nat, x: nat, carry: nat)
    requires c < |was| == |e| && m <= 10 && e[c] == was[c] && Multiplying(was, e, c, m, x, carry)
    ensures var b := m * e[c] + carry;
            0 <= b < 0x1_0000_0000 && Multiplying(was, e[c := b % 256], c + 1, m, x, b / 256)
  {
    hide LittleEndian, Pow256;
    var b := m * e[c] + carry;
    var e' := e[c := b % 256];
    MulMono(m, 10, e[c]);
    MultiplyByte(LittleEndian(was[..c]), LittleEndian(e[..c]), Pow256(c), m, e[c], carry, x);
    LittleEndianNext(was, c);
    LittleEndianNext(e', c);
    assert e'[..c] == e[..c];
    PowNext(c);
    MulMono(0, m, LittleEndian(was[..c + 1]));
    MulMono(0, b / 256, Pow256(c + 1));
  }

  lemma PowNext(c: nat)
    ensures Pow256(c + 1) == 256 * Pow256(c)
  {
  }

  lemma MultiplyDone(was: seq<byte>, e: seq<byte>, c: nat, m: nat, x: nat, carry: nat)
    requires c <= |was| == |e| == 8 && Multiplying(was, e, c, m, x, carry)
    requires forall k :: c <= k < 8 ==> e[k] == was[k]
    requires c == 8 || (m == 1 && carry == 0)
    ensures 0 <= m * LittleEndian(was) && LittleEndian(e) == Wrap(m * LittleEndian(was) + x)
  {
    hide LittleEndian, Pow256;
    PowWords();
    LittleEndianBound(e);
    if c == 8 {
      assert was[..8] == was && e[..8] == e;
      DivModUnique(m * LittleEndian(was) + x, TWO64, carry, LittleEndian(e));
    } else {
      SameTail(was, e, c);
    }
  }

  /** The inner function b of decimalStringToHash64: multiplies by a and adds b, byte by byte;
      adding to a number times 1 stops when there is no carry. */
  method MultiplyAdd(e: array<byte>, a: nat, b: int)
    requires e.Length == 8 && 1 <= a <= 10 && -48 <= b < 0x11_0000
    modifies e
    ensures b >= 0 ==> 0 <= a * LittleEndian(old(e[..])) && LittleEndian(e[..]) == Wrap(a * LittleEndian(old(e[..])) + b)
  {
    hide LittleEndian, Multiplying, Wrap, BitAnd, Shr;
    ghost var was := e[..];
    var c, carry := 0, b;
    if b >= 0 { MultiplyStart(was, a, b); }
    while 8 > c && (1 != a || 0 < carry)
      invariant 0 <= c <= 8
      invariant forall k :: c <= k < 8 ==> e[k] == was[k]
      invariant b >= 0 ==> carry >= 0 && Multiplying(was, e[..], c, a, b, carry)
    {
      ghost var before := e[..];
      if b >= 0 { MultiplyStep(was, before, c, a, b, carry); }
      carry := a * e[c] + carry;
      LowByte(carry);
      e[c] := BitAnd(carry, 255);
      carry := Shr(carry, 8);
      assert e[..] == before[c := e[c]];
      c := c + 1;
    }
    if b >= 0 { MultiplyDone(was, e[..], c, a, b, carry); }
  }

  lemma LowByte(x: int)
    ensures BitAnd(x, 255) == x % 256 && (0 <= x < 0x1_0000_0000 ==> Shr(x, 8) == x / 256)
  {
    hide BitAnd, Pow2;
    Masks(x);
    SmallPowers();
  }

  function Complement(e: seq<byte>): (r: seq<byte>)
    ensures |r| == |e|
  {
    seq(|e|, i requires 0 <= i < |e| => 255 - e[i])
  }

  lemma {:induction false} ComplementValue(e: seq<byte>)
    ensures LittleEndian(Complement(e)) == Pow256(|e|) - 1 - LittleEndian(e)
  {
    if e != [] {
      var n := |e| - 1;
      assert Complement(e)[..n] == Complement(e[..n]);
      ComplementValue(e[..n]);
      MulDist(255, e[n], Pow256(n));
    }
  }

  /** The inner function c: complements all bytes. */
  method ComplementAll(e: array<byte>)
    modifies e
    ensures e[..] == Complement(old(e[..]))
  {
    hide BitAnd;
    for a := 0 to e.Length
      invariant forall k :: 0 <= k < a ==> e[k] == 255 - old(e[k])
      invariant forall k :: a <= k < e.Length ==> e[k] == old(e[k])
    {
      NotByte(e[a]);
      e[a] := BitAnd(BitNot(e[a]), 255);
    }
  }

  lemma NotByte(x: byte)
    ensures BitAnd(BitNot(x), 255) == 255 - x
  {
    hide BitAnd;
    Masks(BitNot(x));
  }

  /** The digits, without sign, as eight bytes. */
  method HashDigits(a: string) returns (e: array<byte>)
    ensures fresh(e) && e.Length == 8
    ensures AllDigits(a) ==> LittleEndian(e[..]) == Wrap(NumberOf(a))
  {
    hide *;
    e := new byte[8](_ => 0);
    ZeroHash(e[..]);
    EmptyNumber();
    assert a[..0] == "";
    for f := 0 to |a|
      invariant AllDigits(a) ==> LittleEndian(e[..]) == Wrap(NumberOf(a[..f]))
    {
      if AllDigits(a) { HashDigit(a, f, LittleEndian(e[..])); }
      DigitRange(a[f]);
      MultiplyAdd(e, 10, DigitValue(a[f]));
    }
    assert a[..|a|] == a;
  }

  /** jspb.utils.decimalStringToHash64; None (it throws) on the empty string. */
  method DecimalStringToHash64(s: string) returns (r: Option<seq<byte>>)
    ensures r.Some? <==> |s| > 0
    ensures r.Some? ==> |r.value| == 8
    ensures r.Some? && IsSigned(s) ==> LittleEndian(r.value) == Wrap(SignedNumber(s))
  {
    if !(0 < |s|) { return None; }
    hide LittleEndian, NumberOf, Wrap, AllDigits, IsSigned, SignedNumber;
    SignCases(s);
    var d, a := false, s;
    if '-' == a[0] {
      d := true;
      a := a[1..];
    }
    var e := HashDigits(a);
    if d {
      ghost var n := LittleEndian(e[..]);
      Negated(e[..]);
      ComplementAll(e);
      MultiplyAdd(e, 1, 1);
      NegateHash(NumberOf(a), n);
    }
    r := Some(e[..]);
  }

  lemma SignCases(s: string)
    requires |s| > 0
    ensures s[0] == '-' ==> IsSigned(s) == AllDigits(s[1..]) && SignedNumber(s) == 0 - NumberOf(s[1..])
    ensures s[0] != '-' ==> IsSigned(s) == AllDigits(s) && SignedNumber(s) == NumberOf(s)
  {
  }

  lemma DigitRange(c: char)
    ensures -48 <= DigitValue(c) < 0x11_0000
  {
  }

  lemma HashDigit(a: string, f: nat, v: nat)
    requires f < |a| && AllDigits(a) && v == Wrap(NumberOf(a[..f]))
    ensures DigitValue(a[f]) >= 0 && Wrap(10 * v + DigitValue(a[f])) == Wrap(NumberOf(a[..f + 1]))
  {
    hide NumberOf;
    NumberSnoc(a, f);
    WrapMultiply(NumberOf(a[..f]), DigitValue(a[f]));
  }

  lemma Negated(e: seq<byte>)
    requires |e| == 8
    ensures LittleEndian(e) < TWO64 && LittleEndian(Complement(e)) == TWO64 - 1 - LittleEndian(e)
  {
    hide LittleEndian, Pow256;
    PowWords();
    LittleEndianBound(e);
    ComplementValue(e);
  }

  lemma {:induction false} ZeroHash(e: seq<byte>)
    requires forall k :: 0 <= k < |e| ==> e[k] == 0
    ensures LittleEndian(e) == 0 == Wrap(0)
  {
    if e != [] { ZeroHash(e[..|e| - 1]); }
  }

  lemma WrapMultiply(x: nat, c: nat)
    ensures (10 * (x % TWO64) + c) % TWO64 == (10 * x + c) % TWO64
  {
    var q, r := x / TWO64, x % TWO64;
    assert 10 * x + c == 10 * q * TWO64 + (10 * r + c);
    AddMultiple(10 * q, 10 * r + c);
  }

  lemma AddMultiple(q: int, y: int)
    ensures (q * TWO64 + y) % TWO64 == y % TWO64
  {
    DivModUnique(q * TWO64 + y, TWO64, q + y / TWO64, y % TWO64);
  }

  /** Two's complement: complement and add one. */
  lemma NegateHash(x: int, n: nat)
    requires n < TWO64
    ensures n == Wrap(x) ==> Wrap(1 * (TWO64 - 1 - n) + 1) == Wrap(0 - x)
  {
    NegateMod(x);
  }

  /** jspb.utils.splitHash64 */
  function SplitHash64(h: seq<byte>): (u32, u32)
    requires |h| == 8
  {
    (Shr(h[0] + Shl(h[1], 8) + Shl(h[2], 16) + Shl(h[3], 24), 0),
     Shr(h[4] + Shl(h[5], 8) + Shl(h[6], 16) + Shl(h[7], 24), 0))
  }

  /** x >>> k & 255 */
  function ByteOf(x: u32, k: nat): byte
    requires k < 32
  {
    LowByte(Shr(x, k));
    BitAnd(Shr(x, k), 255)
  }

  /** jspb.utils.joinHash64 */
  function JoinHash64(a: u32, b: u32): seq<byte> {
    [ByteOf(a, 0), ByteOf(a, 8), ByteOf(a, 16), ByteOf(a, 24),
     ByteOf(b, 0), ByteOf(b, 8), ByteOf(b, 16), ByteOf(b, 24)]
  }

  function Word32(a: nat, b: nat, c: nat, d: nat): nat {
    a + 0x100 * b + 0x1_0000 * c + 0x100_0000 * d
  }

  lemma FourBytes(a: byte, b: byte, c: byte, d: byte)
    ensures Shr(a + Shl(b, 8) + Shl(c, 16) + Shl(d, 24), 0) == Word32(a, b, c, d)
  {
    hide Pow2, Shl, Shr;
    SmallPowers();
    Powers();
    ShlSmall(b, 8);
    ShlSmall(c, 16);
    ShlMod(d);
    ShrMod(a + Shl(b, 8) + Shl(c, 16) + Shl(d, 24));
  }

  lemma ShlMod(d: byte)
    ensures Shl(d, 24) == if d < 128 then 0x100_0000 * d else 0x100_0000 * d - 0x1_0000_0000
  {
    hide ShiftLeft, Pow2;
    Powers();
    ShiftLeftValue(d, 24);
  }

  /** The two halves of a hash are the number its bytes spell, and joining gives the bytes back. */
  lemma SplitHashValue(h: seq<byte>)
    requires |h| == 8
    ensures var (lo, hi) := SplitHash64(h); Join(lo, hi) == LittleEndian(h) && JoinHash64(lo, hi) == h
  {
    hide Shr, Shl, BitAnd, LittleEndian, Pow256, Word32, ByteOf;
    FourBytes(h[0], h[1], h[2], h[3]);
    FourBytes(h[4], h[5], h[6], h[7]);
    EightBytes(h);
    var (lo, hi) := SplitHash64(h);
    BytesOf(lo, h[0], h[1], h[2], h[3]);
    BytesOf(hi, h[4], h[5], h[6], h[7]);
  }

  lemma EightBytes(h: seq<byte>)
    requires |h| == 8
    ensures LittleEndian(h) == Word32(h[0], h[1], h[2], h[3]) + 0x1_0000_0000 * Word32(h[4], h[5], h[6], h[7])
  {
    hide LittleEndian, Word32;
    LowBytes(h);
    HighBytes(h);
    assert h[..8] == h;
  }

  lemma LowBytes(h: seq<byte>)
    requires |h| == 8
    ensures LittleEndian(h[..4]) == Word32(h[0], h[1], h[2], h[3])
  {
    hide LittleEndian;
    LittleEndianNext(h, 0); LittleEndianNext(h, 1); LittleEndianNext(h, 2); LittleEndianNext(h, 3);
    SmallPow256();
    EmptyBytes(h[..0]);
  }

  lemma HighBytes(h: seq<byte>)
    requires |h| == 8
    ensures LittleEndian(h[..8]) == LittleEndian(h[..4]) + 0x1_0000_0000 * Word32(h[4], h[5], h[6], h[7])
  {
    hide LittleEndian;
    LittleEndianNext(h, 4); LittleEndianNext(h, 5); LittleEndianNext(h, 6); LittleEndianNext(h, 7);
    SmallPow256();
  }

  lemma EmptyBytes(h: seq<byte>)
    requires h == []
    ensures LittleEndian(h) == 0
  {
  }

  lemma SmallPow256()
    ensures Pow256(0) == 1 && Pow256(1) == 0x100 && Pow256(2) == 0x1_0000 && Pow256(3) == 0x100_0000
    ensures Pow256(4) == 0x1_0000_0000 && Pow256(5) == 0x100_0000_0000 && Pow256(6) == 0x1_0000_0000_0000
    ensures Pow256(7) == 0x100_0000_0000_0000
  {
    assert Pow256(4) == 0x1_0000_0000;
  }

  lemma BytesOf(x: u32, a: byte, b: byte, c: byte, d: byte)
    requires x == Word32(a, b, c, d)
    ensures ByteOf(x, 0) == a && ByteOf(x, 8) == b && ByteOf(x, 16) == c && ByteOf(x, 24) == d
  {
    hide BitAnd, Shr, Pow2;
    ShrBytes(x);
    LowByte(Shr(x, 0)); LowByte(Shr(x, 8)); LowByte(Shr(x, 16)); LowByte(Shr(x, 24));
    var z: int := c + 0x100 * (d as int);
    var y: int := b + 0x100 * z;
    DivModUnique(x, 0x100, y, a);
    DivModUnique(y, 0x100, z, b);
    DivModUnique(z, 0x100, d, c);
    DivModUnique(x, 0x1_0000, z, a + 0x100 * (b as int));
    DivModUnique(x, 0x100_0000, d, a + 0x100 * (b as int) + 0x1_0000 * (c as int));
  }

  lemma ShrBytes(x: u32)
    ensures Shr(x, 0) == x && Shr(x, 8) == x / 0x100 && Shr(x, 16) == x / 0x1_0000 && Shr(x, 24) == x / 0x100_0000
  {
    hide Pow2;
    SmallPowers();
    Powers();
  }

  /** jspb.utils.splitDecimalString: for a signed string of digits, the same 64 bits as
      Int64.fromString. */
  method SplitDecimalString(s: string) returns (r: Option<(u32, u32)>)
    ensures r.Some? <==> |s| > 0
    ensures r.Some? && IsSigned(s) ==> Join(r.value.0, r.value.1) == Wrap(SignedNumber(s))
  {
    hide LittleEndian, SplitHash64, Wrap, IsSigned, SignedNumber, Join;
    var h := DecimalStringToHash64(s);
    if h.None? { return None; }
    SplitHashValue(h.value);
    r := Some(SplitHash64(h.value));
  }
}
