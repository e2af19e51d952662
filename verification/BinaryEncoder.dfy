/** jspb.BinaryEncoder: appends encoded scalars to a growing byte buffer. */
module BinaryEncoder {
  import opened Bits
  import opened Common
  import opened Js
  import opened Varints
  import Utf8

  lemma AppendStep(buffer: seq<byte>, b: byte, rest: seq<byte>)
    ensures (buffer + [b]) + rest == buffer + ([b] + rest)
  {
  }

  /** (a & 127) | 128 is the low group with the continuation bit. */
  lemma GroupByte(a: int)
    ensures BitOr(BitAnd(a, 127), 128) == a % 128 + 128
  {
    hide BitAnd, BitOr, Pow2;
    Masks(a);
    SmallPowers();
    OrSum(128, a % 128, 7);
  }

  /** The shift of the two halves divides the 64-bit number by 128. */
  lemma SplitShift(lo: u32, hi: u32)
    ensures var lo' := Shr(BitOr(Shr(lo, 7), Shl(hi, 25)), 0);
            Join(lo', Shr(hi, 7)) == Join(lo, hi) / 128
  {
    hide BitOr, Shl, Pow2, Shr;
    SmallPowers();
    Powers();
    ShrZero(BitOr(Shr(lo, 7), Shl(hi, 25)));
    assert Shr(lo, 7) == lo / 128 && Shr(hi, 7) == hi / 128;
    OrShl(Shr(lo, 7), hi, 25);
  }

  lemma JoinGroup(lo: u32, hi: u32)
    ensures Join(lo, hi) % 128 == lo % 128
    ensures Join(lo, hi) < 128 <==> hi == 0 && lo <= 127
    ensures hi == 0 ==> Join(lo, hi) == lo
  {
  }

  /** Writing a negative int32 walks through the groups of its 64-bit two's complement. */
  lemma NegativeGroup(a: int, k: nat)
    requires k <= 8 && -0x8000_0000 <= a < 0 && (k > 4 ==> a == -1)
    ensures Pow2(64 - 7 * k) + a >= 128
    ensures (Pow2(64 - 7 * k) + a) % 128 == a % 128
    ensures (Pow2(64 - 7 * k) + a) / 128 == Pow2(64 - 7 * (k + 1)) + a / 128
  {
    hide Pow2;
    SmallPowers();
    Pow2Words();
    Pow2Add(7, 64 - 7 * (k + 1));
    assert 64 - 7 * k == 7 + (64 - 7 * (k + 1));
    if k <= 4 { Pow2Mono(32, 64 - 7 * k); } else { Pow2Mono(8, 64 - 7 * k); }
  }

  /** What is left to encode after k of the nine groups. */
  ghost function Rest(a: int, k: nat): int
    requires k <= 9
  {
    Pow2(64 - 7 * k) + a
  }

  /** Lower bounds of the number under repeated shifts by 7: from the fifth on it is -1. */
  ghost function Floor(k: nat): int {
    if k == 0 then -0x8000_0000 else if k == 1 then -0x100_0000 else if k == 2 then -0x2_0000
    else if k == 3 then -0x400 else if k == 4 then -8 else -1
  }

  lemma RestEnds(a: int)
    ensures Floor(0) == -0x8000_0000
    ensures -0x8000_0000 <= a < 0 ==> Rest(a, 0) == a % 0x1_0000_0000_0000_0000
    ensures Floor(9) <= a < 0 ==> Rest(a, 9) == 1 && Varint(1) == [1]
  {
    Pow2Words();
    SmallPowers();
  }

  lemma SarSeven(a: int)
    requires -0x8000_0000 <= a < 0x8000_0000
    ensures Sar(a, 7) == a / 128
  {
    SmallPowers();
  }

  lemma FloorStep(a: int, k: nat)
    requires k <= 8 && Floor(k) <= a < 0
    ensures Floor(k + 1) <= a / 128 < 0 && -0x8000_0000 <= a && (k > 4 ==> a == -1)
  {
  }

  lemma NegativeStep(buffer: seq<byte>, a: int, k: nat)
    requires k <= 8 && Floor(k) <= a < 0
    ensures Floor(k + 1) <= a / 128 < 0
    ensures Rest(a, k) >= 0 && Rest(a / 128, k + 1) >= 0
    ensures (buffer + [a % 128 + 128]) + Varint(Rest(a / 128, k + 1)) == buffer + Varint(Rest(a, k))
  {
    hide Pow2, Varint, Floor;
    FloorStep(a, k);
    NegativeGroup(a, k);
    VarintStep(buffer, Rest(a, k));
  }

  lemma VarintStep(buffer: seq<byte>, v: nat)
    requires v >= 128
    ensures (buffer + [v % 128 + 128]) + Varint(v / 128) == buffer + Varint(v)
  {
    VarintUnfold(v);
    hide Varint;
    AppendStep(buffer, v % 128 + 128, Varint(v / 128));
  }

  lemma VarintUnfold(v: nat)
    requires v >= 128
    ensures Varint(v) == [v % 128 + 128] + Varint(v / 128)
  {
  }

  class BinaryEncoder {
    var buffer: seq<byte>

    constructor ()
      ensures buffer == []
    {
      buffer := [];
    }

    /** Hands over the buffer and starts a new one. */
    method End() returns (r: seq<byte>)
      modifies this
      ensures r == old(buffer) && buffer == []
    {
      r := buffer;
      buffer := [];
    }

    method WriteUnsignedVarint32(value: u32)
      modifies this
      ensures buffer == old(buffer) + Varint(value)
    {
      var a := value;
      while 127 < a
        invariant buffer + Varint(a) == old(buffer) + Varint(value)
      {
        GroupByte(a);
        SmallPowers();
        VarintStep(buffer, a);
        buffer := buffer + [BitOr(BitAnd(a, 127), 128)];
        a := Shr(a, 7);
      }
      buffer := buffer + [a];
    }

    /** Negative numbers take ten bytes: nine groups of the sign-extended number and a last 1. */
    method WriteSignedVarint32(value: int)
      requires -0x8000_0000 <= value < 0x8000_0000
      modifies this
      ensures buffer == old(buffer) + Varint(value % 0x1_0000_0000_0000_0000)
    {
      hide *;
      if 0 <= value {
        WriteUnsignedVarint32(value);
        return;
      }
      WriteNegativeVarint32(value);
    }

    method WriteNegativeVarint32(value: int)
      requires -0x8000_0000 <= value < 0
      modifies this
      ensures buffer == old(buffer) + Varint(value % 0x1_0000_0000_0000_0000)
    {
      hide *;
      var a := value;
      ghost var target := Varint(value % 0x1_0000_0000_0000_0000);
      RestEnds(a);
      for b := 0 to 9
        invariant -0x8000_0000 <= a < 0 && Floor(b) <= a && Rest(a, b) >= 0
        invariant buffer + Varint(Rest(a, b)) == old(buffer) + target
      {
        NegativeStep(buffer, a, b);
        GroupByte(a);
        SarSeven(a);
        buffer := buffer + [BitOr(BitAnd(a, 127), 128)];
        a := Sar(a, 7);
      }
      RestEnds(a);
      buffer := buffer + [1];
    }

    method WriteSplitVarint64(low: u32, high: u32)
      modifies this
      ensures buffer == old(buffer) + Varint(Join(low, high))
    {
      var a, b := low, high;
      hide Join, Shr, BitOr, BitAnd, Shl;
      while 0 < b || 127 < a
        invariant buffer + Varint(Join(a, b)) == old(buffer) + Varint(Join(low, high))
        decreases Join(a, b)
      {
        GroupByte(a);
        SplitShift(a, b);
        JoinGroup(a, b);
        VarintStep(buffer, Join(a, b));
        buffer := buffer + [BitOr(BitAnd(a, 127), 128)];
        a := Shr(BitOr(Shr(a, 7), Shl(b, 25)), 0);
        b := Shr(b, 7);
      }
      JoinGroup(a, b);
      buffer := buffer + [a];
    }

    method WriteSignedVarint64(value: int)
      requires -0x8000_0000_0000_0000 <= value < 0x8000_0000_0000_0000
      modifies this
      ensures buffer == old(buffer) + Varint(value % 0x1_0000_0000_0000_0000)
    {
      var (low, high) := SplitInt64(value);
      SplitInt64Value(value);
      WriteSplitVarint64(low, high);
    }

    /** Appends the UTF-8 bytes and returns how many. */
    method WriteString(a: seq<Utf8.unit>) returns (n: nat)
      modifies this
      ensures buffer == old(buffer) + Utf8.Encode(a, 0) && n == |Utf8.Encode(a, 0)|
    {
      hide Utf8.Encode, BitOr, BitAnd, Sar;
      var b := |buffer|;
      ghost var all := Utf8.Encode(a, 0);
      var c := 0;
      while c < |a|
        invariant c <= |a| && buffer + Utf8.Encode(a, c) == old(buffer) + all
      {
        EncodeStep(buffer, a, c);
        var d: int := a[c];
        if d < 128 {
          buffer := buffer + [d];
        } else if d < 2048 {
          TwoBytes(d);
          buffer := buffer + [BitOr(Sar(d, 6), 192), BitOr(BitAnd(d, 63), 128)];
        } else if 0xD800 <= d && 0xDBFF >= d && c + 1 < |a| {
          var e: int := a[c + 1];
          if 0xDC00 <= e && 0xDFFF >= e {
            var p := 1024 * (d - 0xD800) + e - 0xDC00 + 0x1_0000;
            FourBytes(p);
            buffer := buffer + [BitOr(Sar(p, 18), 240), BitOr(BitAnd(Sar(p, 12), 63), 128),
                                BitOr(BitAnd(Sar(p, 6), 63), 128), BitOr(BitAnd(p, 63), 128)];
            c := c + 1;
          }
        } else {
          ThreeBytes(d);
          buffer := buffer + [BitOr(Sar(d, 12), 224), BitOr(BitAnd(Sar(d, 6), 63), 128), BitOr(BitAnd(d, 63), 128)];
        }
        c := c + 1;
      }
      EncodeDone(a);
      n := |buffer| - b;
    }
  }

  lemma EncodeStep(buffer: seq<byte>, a: seq<Utf8.unit>, c: nat)
    requires c < |a|
    ensures var p := Utf8.Char(a, c);
            buffer + Utf8.Encode(a, c) == (buffer + p.bytes) + Utf8.Encode(a, c + p.n)
  {
    SeqAssoc(buffer, Utf8.Char(a, c).bytes, Utf8.Encode(a, c + Utf8.Char(a, c).n));
  }

  lemma EncodeDone(a: seq<Utf8.unit>)
    ensures Utf8.Encode(a, |a|) == []
  {
  }

  /** x & 63 | 128 */
  lemma Continuation(x: nat)
    requires x < 0x8000_0000
    ensures BitOr(BitAnd(x, 63), 128) == x % 64 + 128
  {
    hide BitOr, BitAnd, Pow2;
    Masks(x);
    SmallPowers();
    OrSum(128, x % 64, 7);
  }

  lemma Shifts(x: nat)
    requires x < 0x8000_0000
    ensures Sar(x, 6) == x / 64 && Sar(x, 12) == x / 0x1000 && Sar(x, 18) == x / 0x4_0000
  {
    hide Pow2;
    SmallPowers();
    Powers();
  }

  lemma TwoBytes(d: nat)
    requires d < 0x800
    ensures BitOr(Sar(d, 6), 192) == Utf8.Two(d)[0] && BitOr(BitAnd(d, 63), 128) == Utf8.Two(d)[1]
  {
    hide BitOr, BitAnd, Sar, Pow2;
    Shifts(d);
    SmallPowers();
    Continuation(d);
    OrSum(192, d / 64, 5);
  }

  lemma ThreeBytes(d: nat)
    requires d < 0x1_0000
    ensures BitOr(Sar(d, 12), 224) == Utf8.Three(d)[0] && BitOr(BitAnd(Sar(d, 6), 63), 128) == Utf8.Three(d)[1]
    ensures BitOr(BitAnd(d, 63), 128) == Utf8.Three(d)[2]
  {
    hide BitOr, BitAnd, Sar, Pow2;
    Shifts(d);
    SmallPowers();
    Continuation(d);
    Continuation(d / 64);
    OrSum(224, d / 0x1000, 4);
  }

  lemma FourBytes(d: nat)
    requires d < 0x20_0000
    ensures BitOr(Sar(d, 18), 240) == Utf8.Four(d)[0] && BitOr(BitAnd(Sar(d, 12), 63), 128) == Utf8.Four(d)[1]
    ensures BitOr(BitAnd(Sar(d, 6), 63), 128) == Utf8.Four(d)[2] && BitOr(BitAnd(d, 63), 128) == Utf8.Four(d)[3]
  {
    hide BitOr, BitAnd, Sar, Pow2;
    Shifts(d);
    SmallPowers();
    Continuation(d);
    Continuation(d / 64);
    Continuation(d / 0x1000);
    OrSum(240, d / 0x4_0000, 3);
  }
}
