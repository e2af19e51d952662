/** Base-128 varints as numbers and bytes, and the split of 64-bit integers into halves. */
module Varints {
  import opened Bits
  import opened Common
  import opened Doubles
  import opened Js

  /** The canonical encoding: seven bits a byte, low group first, high bit on all but the last
      (Protocol Buffers encoding guide, section "Base 128 Varints"). */
  function Varint(v: nat): (s: seq<byte>)
    ensures |s| >= 1
  {
    if v < 128 then [v] else [v % 128 + 128] + Varint(v / 128)
  }

  /** Length of the varint at i if it ends within `limit` bytes and the array, else 0. */
  function VarintLen(bytes: seq<byte>, i: nat, limit: nat): (n: nat)
    ensures n <= limit && (n > 0 ==> i + n <= |bytes|)
    decreases limit
  {
    if limit == 0 || i >= |bytes| then 0
    else if bytes[i] < 128 then 1
    else
      var m := VarintLen(bytes, i + 1, limit - 1);
      if m == 0 then 0 else m + 1
  }

  /** The number in the low seven bits of n bytes from i. */
  function Payload(bytes: seq<byte>, i: nat, n: nat): nat
    requires i + n <= |bytes|
    decreases n
  {
    if n == 0 then 0 else bytes[i] % 128 + 128 * Payload(bytes, i + 1, n - 1)
  }

  /** Where the canonical encoding occurs, it is what a reader of enough bytes finds. */
  lemma {:induction false} VarintReads(bytes: seq<byte>, i: nat, v: nat, limit: nat)
    requires Occurs(bytes, i, Varint(v)) && |Varint(v)| <= limit
    ensures VarintLen(bytes, i, limit) == |Varint(v)|
    ensures Payload(bytes, i, |Varint(v)|) == v
    decreases v
  {
    assert bytes[i] == Varint(v)[0];
    if v >= 128 {
      forall k | 0 <= k < |Varint(v / 128)| ensures bytes[i + 1 + k] == Varint(v / 128)[k] {
        assert bytes[i + (k + 1)] == Varint(v)[k + 1];
      }
      VarintReads(bytes, i + 1, v / 128, limit - 1);
    }
  }

  /** v < 2^(7n) takes at most n bytes: 5 for 32 bits, 10 for 64. */
  lemma {:induction false} VarintLength(v: nat, n: nat)
    requires n >= 1 && v < Pow2(7 * n)
    ensures |Varint(v)| <= n
    decreases n
  {
    if n == 1 { SmallPowers(); }
    else {
      Pow2Add(7 * (n - 1), 7);
      SmallPowers();
      if v >= 128 { VarintLength(v / 128, n - 1); }
    }
  }

  /** And no fewer: n bytes are as many as it takes. */
  lemma {:induction false} VarintShortest(v: nat, n: nat)
    requires n < |Varint(v)|
    ensures v >= Pow2(7 * n) || n == 0
    decreases n
  {
    if n > 0 {
      if n == 1 { SmallPowers(); } else { VarintShortest(v / 128, n - 1); }
      SmallPowers();
      Pow2Add(7, 7 * (n - 1));
      assert 7 + 7 * (n - 1) == 7 * n;
      if n > 1 { HalvesOf(v, Pow2(7 * (n - 1))); }
    }
  }

  lemma HalvesOf(v: nat, p: nat)
    requires v / 128 >= p
    ensures v >= 128 * p
  {
  }

  /** Each byte of the encoding carries its seven bits of the number, and all but the last have
      the high bit set. */
  lemma {:induction false} VarintByte(v: nat, i: nat)
    requires i < |Varint(v)|
    ensures Varint(v)[i] == v / Pow2(7 * i) % 128 + (if i + 1 < |Varint(v)| then 128 else 0)
    decreases i
  {
    SmallPowers();
    if i > 0 {
      VarintByte(v / 128, i - 1);
      Pow2Add(7, 7 * (i - 1));
      assert 7 + 7 * (i - 1) == 7 * i;
      QuotientOf(v, Pow2(7 * (i - 1)));
      assert Varint(v)[i] == Varint(v / 128)[i - 1];
    }
  }

  lemma QuotientOf(v: nat, p: nat)
    requires p > 0
    ensures v / 128 / p == v / (128 * p)
  {
    var h, l := v / 128, v % 128;
    var q, r := h / p, h % p;
    MulAssoc(q, p, 128);
    MulDist(q * p, r, 128);
    MulAssoc(128, q, p);
    DivModUnique(v, 128 * p, q, 128 * r + l);
  }

  /** A varint of n bytes is one whose n-th byte is the first below 128; there is none (0) if no
      byte within the limit and the array is. */
  lemma {:induction false} VarintLenIs(bytes: seq<byte>, i: nat, limit: nat, n: nat)
    requires n <= limit && i + n <= |bytes| && forall k :: i <= k < i + n ==> bytes[k] >= 128
    ensures n == limit || i + n == |bytes| ==> VarintLen(bytes, i, limit) == 0
    ensures n < limit && i + n < |bytes| && bytes[i + n] < 128 ==> VarintLen(bytes, i, limit) == n + 1
    decreases n
  {
    if n > 0 { VarintLenIs(bytes, i + 1, limit - 1, n - 1); }
  }

  /** The number's k-th group of seven bits is that of the k-th byte. */
  lemma {:induction false} PayloadGroup(bytes: seq<byte>, i: nat, n: nat, k: nat)
    requires i + n <= |bytes| && k < n
    ensures Payload(bytes, i, n) / Pow2(7 * k) % 128 == bytes[i + k] % 128
    decreases k
  {
    hide Payload, Pow2;
    SmallPowers();
    var low := PayloadStep(bytes, i, n);
    DivModUnique(Payload(bytes, i, n), 128, Payload(bytes, i + 1, n - 1), low);
    if k > 0 {
      PayloadGroup(bytes, i + 1, n - 1, k - 1);
      Pow2Add(7, 7 * (k - 1));
      assert 7 + 7 * (k - 1) == 7 * k;
      QuotientOf(Payload(bytes, i, n), Pow2(7 * (k - 1)));
    } else {
      DivModUnique(Payload(bytes, i, n), 1, Payload(bytes, i, n), 0);
    }
  }

  lemma PayloadStep(bytes: seq<byte>, i: nat, n: nat) returns (low: nat)
    requires i + n <= |bytes| && n > 0
    ensures low == bytes[i] % 128 && Payload(bytes, i, n) == Payload(bytes, i + 1, n - 1) * 128 + low
  {
    low := bytes[i] % 128;
  }

  lemma VarintLength32(v: u32)
    ensures |Varint(v)| <= 5
  {
    Pow2Words();
    Pow2Mono(32, 35);
    VarintLength(v, 5);
  }

  lemma VarintLength64(v: nat)
    requires v < 0x1_0000_0000_0000_0000
    ensures |Varint(v)| <= 10
  {
    Pow2Words();
    Pow2Mono(64, 70);
    VarintLength(v, 10);
  }

  // ------------------------------------------------------------ 64-bit halves

  /** jspb.utils.joinUint64, exact. */
  function Join(lo: u32, hi: u32): (v: nat)
    ensures v < 0x1_0000_0000_0000_0000
  {
    hi * 0x1_0000_0000 + lo
  }

  /** The two's complement reading of 64 bits. */
  function Signed64(v: nat): int
    requires v < 0x1_0000_0000_0000_0000
  {
    if v < 0x8000_0000_0000_0000 then v else v - 0x1_0000_0000_0000_0000
  }

  /** jspb.utils.splitInt64: halves of the absolute value, complemented for negatives. */
  function SplitInt64(a: int): (u32, u32) {
    var m := if 0 > a then -a else a;
    var c := Shr(m, 0);
    var h := Shr((m - c) / 0x1_0000_0000, 0);
    if a >= 0 then (c, h)
    else
      var h' := Shr(BitNot(h), 0);
      var c' := Shr(BitNot(c), 0) + 1;
      if 0xFFFF_FFFF < c' then (0, if 0xFFFF_FFFF < h' + 1 then 0 else h' + 1)
      else (c', h')
  }

  lemma ShrZero(x: int)
    ensures Shr(x, 0) == ToUint32(x)
  {
  }

  lemma NotValue(x: u32)
    ensures Shr(BitNot(x), 0) == 0xFFFF_FFFF - x
  {
  }

  /** The halves are the number modulo 2^64. */
  lemma SplitInt64Value(a: int)
    requires -0x8000_0000_0000_0000 <= a < 0x8000_0000_0000_0000
    ensures var (lo, hi) := SplitInt64(a); Join(lo, hi) == a % 0x1_0000_0000_0000_0000
  {
    hide Shr, BitNot, ToUint32;
    var m := if 0 > a then -a else a;
    var c, h := AbsoluteHalves(m);
    NotValue(c);
    NotValue(h);
    if a >= 0 {
      DivModUnique(a, 0x1_0000_0000_0000_0000, 0, m);
    } else {
      DivModUnique(a, 0x1_0000_0000_0000_0000, -1, 0x1_0000_0000_0000_0000 - m);
    }
  }

  lemma AbsoluteHalves(m: nat) returns (c: u32, h: u32)
    requires m <= 0x8000_0000_0000_0000
    ensures c == Shr(m, 0) && h == Shr((m - c) / 0x1_0000_0000, 0) && m == h * 0x1_0000_0000 + c && h <= 0x8000_0000
  {
    hide Shr, ToUint32;
    ShrZero(m);
    ToUint32Is(m);
    c := Shr(m, 0);
    var q := m / 0x1_0000_0000;
    DivModUnique(m - c, 0x1_0000_0000, q, 0);
    ShrZero(q);
    ToUint32Is(q);
    h := Shr(q, 0);
  }

  lemma ToUint32Is(x: int)
    ensures ToUint32(x) == x % 0x1_0000_0000
  {
  }

  /** jspb.utils.joinInt64: negate when the top bit is set. The sum of joinUint64 is rounded to
      a double. */
  function JoinInt64(lo: u32, hi: u32): int {
    if BitAnd(hi, 0x8000_0000) == 0 then Rounded(Join(lo, hi))
    else
      var a := Shr(BitNot(lo) + 1, 0);
      var b := Shr(BitNot(hi), 0);
      var b' := if a == 0 then Shr(b + 1, 0) else b;
      0 - Rounded(Join(a, b'))
  }

  lemma {:induction false} AndTopBit(x: nat, k: nat)
    requires x < 2 * Pow2(k)
    ensures And(x, Pow2(k)) == if x < Pow2(k) then 0 else Pow2(k)
  {
    if k > 0 {
      AndDouble(x, Pow2(k - 1));
      AndTopBit(x / 2, k - 1);
    } else {
      AndHalf(x, 1);
    }
  }

  lemma SignBit(hi: u32)
    ensures BitAnd(hi, 0x8000_0000) == 0 <==> hi < 0x8000_0000
  {
    hide And;
    Pow2Words();
    AndTopBit(hi, 31);
  }

  /** joinInt64 reads the halves as two's complement, rounded to a double. */
  lemma JoinInt64Value(lo: u32, hi: u32)
    ensures JoinInt64(lo, hi) == ToDouble(Signed64(Join(lo, hi)))
  {
    hide BitAnd, Rounded;
    SignBit(hi);
    NotValue(hi);
    if hi >= 0x8000_0000 {
      NegateLow(lo);
    }
  }

  lemma NegateLow(lo: u32)
    ensures Shr(BitNot(lo) + 1, 0) == if lo == 0 then 0 else 0x1_0000_0000 - lo
  {
  }

  /** So splitting and joining gives back exactly the doubles among the integers of 64 bits,
      which is every JavaScript number there. */
  lemma SplitJoin(a: int)
    requires -0x8000_0000_0000_0000 <= a < 0x8000_0000_0000_0000
    ensures var (lo, hi) := SplitInt64(a); JoinInt64(lo, hi) == a <==> IsDouble(a)
  {
    hide SplitInt64, JoinInt64, Join, ToDouble, IsDouble;
    SplitInt64Value(a);
    var (lo, hi) := SplitInt64(a);
    JoinInt64Value(lo, hi);
    ToDoubleIs(a);
  }
}
