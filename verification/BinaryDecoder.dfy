/** jspb.BinaryDecoder: reads scalars from a byte array at a cursor, on any input. A failed
    assertion throws; here a reader that throws returns None. */
module BinaryDecoder {
  import opened Bits
  import opened Common
  import opened Js
  import opened Varints
  import Utf8

  /** readUnsignedVarint32 at c: the number and the bytes consumed; None if ten bytes in a row
      announce another. Six bytes or more give a signed number, and a varint cut off by the end
      of the array gives what is there but consumes at least six positions. */
  function Unsigned32(bytes: seq<byte>, c: nat): (r: Option<(int, nat)>)
    ensures r.Some? ==> r.value.1 >= 1
  {
    var n := VarintLen(bytes, c, 10);
    if n > 0 then
      var v := Payload(bytes, c, n);
      Some((if n <= 5 then ToUint32(v) else ToInt32(v), n))
    else if c + 10 <= |bytes| then None
    else
      var m := |bytes| - c;
      Some((if m <= 0 then 0 else ToInt32(Payload(bytes, c, m)), if m < 6 then 6 else m + 1))
  }

  /** readSplitVarint64 at c: the low 64 bits and the bytes consumed. The end of the block is
      not checked. */
  function Split64(bytes: seq<byte>, c: nat): (r: Option<(nat, nat)>)
    ensures r.Some? ==> r.value.0 < 0x1_0000_0000_0000_0000 && r.value.1 >= 1
  {
    var n := VarintLen(bytes, c, 10);
    if n == 0 then None else Some((Payload(bytes, c, n) % 0x1_0000_0000_0000_0000, n))
  }

  /** Where skipVarint stops. */
  function AfterVarint(bytes: seq<byte>, c: nat): (r: nat)
    ensures r > c
    decreases |bytes| - c
  {
    if c < |bytes| && bytes[c] >= 128 then AfterVarint(bytes, c + 1) else c + 1
  }

  /** That is behind the first byte below 128, or behind the first position past the array. */
  lemma {:induction false} AfterVarintIs(bytes: seq<byte>, c: nat, k: nat)
    requires (k > 0 ==> c + k <= |bytes|) && forall i :: c <= i < c + k ==> bytes[i] >= 128
    requires c + k >= |bytes| || bytes[c + k] < 128
    ensures AfterVarint(bytes, c) == c + k + 1
    decreases k
  {
    if k > 0 { AfterVarintIs(bytes, c + 1, k - 1); }
  }

  // ------------------------------------------------------------ lemmas about varints in place

  predicate Continues(b: Option<byte>) { b.Some? && b.value >= 128 }

  predicate Ends(b: Option<byte>) { b.Some? && b.value < 128 }

  /** The first n bytes at c announce another. */
  ghost predicate Running(bytes: seq<byte>, c: nat, n: nat) {
    c + n <= |bytes| && forall k :: c <= k < c + n ==> bytes[k] >= 128
  }

  lemma {:induction false} RunLength(bytes: seq<byte>, c: nat, n: nat, limit: nat)
    requires n <= limit && Running(bytes, c, n)
    ensures var m := VarintLen(bytes, c + n, limit - n);
            VarintLen(bytes, c, limit) == if m == 0 then 0 else m + n
    decreases n
  {
    if n > 0 { RunLength(bytes, c + 1, n - 1, limit - 1); }
  }

  /** The low seven bits of n positions from c; positions past the array count as 0. */
  ghost function Low7(bytes: seq<byte>, c: nat, n: nat): nat
    decreases n
  {
    if n == 0 then 0
    else (if c < |bytes| then bytes[c] % 128 else 0) + 128 * Low7(bytes, c + 1, n - 1)
  }

  lemma {:induction false} Low7Payload(bytes: seq<byte>, c: nat, n: nat, m: nat)
    requires m <= n && c + m <= |bytes| && (m == n || c + m == |bytes|)
    ensures Low7(bytes, c, n) == Payload(bytes, c, m)
    decreases n
  {
    if m > 0 { Low7Payload(bytes, c + 1, n - 1, m - 1); } else { Low7Nothing(bytes, c, n); }
  }

  lemma {:induction false} Low7Nothing(bytes: seq<byte>, c: nat, n: nat)
    requires n == 0 || c >= |bytes|
    ensures Low7(bytes, c, n) == 0
    decreases n
  {
    if n > 0 { Low7Nothing(bytes, c + 1, n - 1); }
  }

  function Low(b: Option<byte>): (v: nat)
    ensures v < 128
  {
    if b.Some? then b.value % 128 else 0
  }

  lemma {:induction false} Low7Snoc(bytes: seq<byte>, c: nat, n: nat)
    ensures Low7(bytes, c, n + 1) == Low7(bytes, c, n) + Low(Utf8.At(bytes, c + n)) * Pow2(7 * n)
    ensures Low7(bytes, c, n) < Pow2(7 * n)
    decreases n
  {
    hide Pow2;
    SmallPowers();
    if n > 0 {
      var m := n - 1;
      Low7Snoc(bytes, c + 1, m);
      Pow2Add(7, 7 * m);
      assert 7 + 7 * m == 7 * n;
      var v, p := Low(Utf8.At(bytes, c + n)), Pow2(7 * m);
      MulAssoc(128, v, p);
      MulAssoc(v, 128, p);
    }
  }

  /** From the sixth group on nothing reaches the low 32 bits. */
  lemma Low7Word(bytes: seq<byte>, c: nat, n: nat)
    requires n >= 5
    ensures ToUint32(Low7(bytes, c, n)) == ToUint32(Low7(bytes, c, 5))
  {
    hide Low7, Pow2, ToUint32;
    Low7Split(bytes, c, 5, n);
    Power35();
    WholeWords(Low7(bytes, c, 5), Low7(bytes, c + 5, n - 5));
  }

  lemma Power35()
    ensures Pow2(35) == 0x8_0000_0000
  {
    SmallPowers();
    Pow2Words();
    Pow2Add(32, 3);
  }

  lemma WholeWords(x: nat, q: nat)
    ensures ToUint32(x + 0x8_0000_0000 * q) == ToUint32(x)
  {
    DivModUnique(x + 0x8_0000_0000 * q, 0x1_0000_0000, x / 0x1_0000_0000 + 8 * q, x % 0x1_0000_0000);
  }

  lemma {:induction false} Low7Split(bytes: seq<byte>, c: nat, k: nat, n: nat)
    requires k <= n
    ensures Low7(bytes, c, n) == Low7(bytes, c, k) + Pow2(7 * k) * Low7(bytes, c + k, n - k)
    decreases k
  {
    if k > 0 {
      Low7Split(bytes, c + 1, k - 1, n - 1);
      Pow2Add(7, 7 * (k - 1));
      SmallPowers();
      assert 7 + 7 * (k - 1) == 7 * k;
      MulAssoc(128, Pow2(7 * (k - 1)), Low7(bytes, c + k, n - k));
    }
  }

  /** No byte among the first n positions ends a varint. */
  ghost predicate Open(bytes: seq<byte>, c: nat, n: nat) {
    forall k :: c <= k < c + n && k < |bytes| ==> bytes[k] >= 128
  }

  lemma OpenStep(bytes: seq<byte>, c: nat, n: nat)
    requires Open(bytes, c, n) && !Ends(Utf8.At(bytes, c + n))
    ensures Open(bytes, c, n + 1)
  {
  }

  lemma OpenNone(bytes: seq<byte>, c: nat)
    ensures Open(bytes, c, 0)
  {
  }

  lemma StopsAt(bytes: seq<byte>, c: nat, n: nat)
    requires 1 <= n <= 10 && Open(bytes, c, n - 1) && Ends(Utf8.At(bytes, c + n - 1))
    ensures VarintLen(bytes, c, 10) == n && Payload(bytes, c, n) == Low7(bytes, c, n)
    ensures n <= 5 ==> Unsigned32(bytes, c) == Some((ToUint32(Low7(bytes, c, n)), n))
    ensures n > 5 ==> Unsigned32(bytes, c) == Some((ToInt32(Low7(bytes, c, 5)), n))
  {
    hide Low7, ToUint32, Payload, VarintLen;
    RunLength(bytes, c, n - 1, 10);
    EndLength(bytes, c + n - 1, 11 - n);
    Low7Payload(bytes, c, n, n);
    if n > 5 {
      Low7Word(bytes, c, n);
      WordOf(Low7(bytes, c, n), Low7(bytes, c, 5));
    }
  }

  lemma EndLength(bytes: seq<byte>, c: nat, limit: nat)
    requires limit > 0 && Ends(Utf8.At(bytes, c))
    ensures VarintLen(bytes, c, limit) == 1
  {
  }

  /** Reading stops at an undefined position once five have been read. */
  lemma CutOff(bytes: seq<byte>, c: nat, n: nat)
    requires 6 <= n <= 10 && Open(bytes, c, n - 1) && c + n > |bytes| && (n > 6 ==> c + n - 1 <= |bytes|)
    ensures Unsigned32(bytes, c) == Some((ToInt32(Low7(bytes, c, 5)), n))
  {
    hide Low7, Payload, ToUint32, Unsigned32;
    NoEnd(bytes, c, n);
    var m: int := |bytes| - c;
    if m > 0 {
      Low7Payload(bytes, c, n, m);
      Low7Word(bytes, c, n);
      WordOf(Low7(bytes, c, n), Low7(bytes, c, 5));
    } else {
      Low7Nothing(bytes, c, 5);
    }
    CutUnsigned(bytes, c);
  }

  lemma WordOf(x: int, y: int)
    requires ToUint32(x) == ToUint32(y)
    ensures ToInt32(x) == ToInt32(y)
  {
    hide ToUint32;
  }

  /** Unsigned32 on a varint that the array cuts off. */
  lemma CutUnsigned(bytes: seq<byte>, c: nat)
    requires VarintLen(bytes, c, 10) == 0 && c + 10 > |bytes|
    ensures |bytes| <= c ==> Unsigned32(bytes, c) == Some((0, 6))
    ensures |bytes| > c ==>
              Unsigned32(bytes, c) == Some((ToInt32(Payload(bytes, c, |bytes| - c)), if |bytes| < c + 6 then 6 else |bytes| - c + 1))
  {
    hide VarintLen, Payload, ToInt32;
  }

  /** The end of a varint of more than five bytes. */
  lemma HighEnd(bytes: seq<byte>, c: nat, n: nat)
    requires 6 <= n <= 10 && Open(bytes, c, n - 1) && !Continues(Utf8.At(bytes, c + n - 1))
    requires n > 6 ==> Continues(Utf8.At(bytes, c + n - 2))
    ensures Unsigned32(bytes, c) == Some((ToInt32(Low7(bytes, c, 5)), n))
  {
    hide Unsigned32, Low7, ToInt32, Open;
    if c + n <= |bytes| { StopsAt(bytes, c, n); } else { CutOff(bytes, c, n); }
  }

  lemma Overrun(bytes: seq<byte>, c: nat)
    requires Open(bytes, c, 10) && c + 10 <= |bytes|
    ensures VarintLen(bytes, c, 10) == 0 && Unsigned32(bytes, c) == None
  {
    RunLength(bytes, c, 10, 10);
  }

  /** v | (b & 127) << 7 * i appends the i-th group. */
  lemma Gather(bytes: seq<byte>, c: nat, v: int, i: nat)
    requires i <= 3 && v == Low7(bytes, c, i)
    ensures var b := Utf8.Bits8(Utf8.At(bytes, c + i));
            BitOr(v, Shl(BitAnd(b, 127), 7 * i)) == Low7(bytes, c, i + 1)
  {
    hide BitOr, BitAnd, Shl, Pow2, Low7, ToUint32, Low, Utf8.At, Utf8.Bits8;
    var b: int := Utf8.Bits8(Utf8.At(bytes, c + i));
    Masks(b);
    LowIs(Utf8.At(bytes, c + i));
    Low7Snoc(bytes, c, i);
    Low7Snoc(bytes, c, i + 1);
    GroupFits(b % 128, i);
    OrShl(v, b % 128, 7 * i);
    OrRange(v, Shl(BitAnd(b, 127), 7 * i));
  }

  lemma GroupFits(v: nat, i: nat)
    requires v < 128 && i <= 3
    ensures v % Pow2(32 - 7 * i) == v && Pow2(7 * (i + 1)) <= 0x1000_0000
  {
    hide Pow2;
    Powers();
    SmallPowers();
    Pow2Mono(8, 32 - 7 * i);
    Pow2Mono(7 * (i + 1), 28);
    DivModUnique(v, Pow2(32 - 7 * i), 0, v);
  }

  lemma OrRange(a: int, b: int)
    ensures -0x8000_0000 <= BitOr(a, b) < 0x8000_0000
    ensures ToUint32(BitOr(a, b)) < 0x8000_0000 ==> BitOr(a, b) == ToUint32(BitOr(a, b))
  {
    hide Or;
  }

  /** v | (b & 15) << 28 completes the low 32 bits. */
  lemma GatherTop(bytes: seq<byte>, c: nat, v: int)
    requires v == Low7(bytes, c, 4)
    ensures var r := BitOr(v, Shl(BitAnd(Utf8.Bits8(Utf8.At(bytes, c + 4)), 15), 28));
            r == ToInt32(Low7(bytes, c, 5)) && Shr(r, 0) == ToUint32(Low7(bytes, c, 5))
  {
    hide BitOr, BitAnd, Shl, Pow2, Low7, Shr, ToUint32, ToInt32, Low, Utf8.At, Utf8.Bits8;
    var b: int := Utf8.Bits8(Utf8.At(bytes, c + 4));
    Masks(b);
    LowIs(Utf8.At(bytes, c + 4));
    Powers28();
    Low7Snoc(bytes, c, 4);
    OrNibble(v, b % 16);
    OrRange(v, Shl(BitAnd(b, 15), 28));
    var r := BitOr(v, Shl(BitAnd(b, 15), 28));
    ShrZero(r);
    TopGroup(v, b);
    ToUint32Is(Low7(bytes, c, 5));
    SameWord(r, Low7(bytes, c, 5));
  }

  lemma OrNibble(c: nat, v: nat)
    requires c < 0x1000_0000 && v < 16
    ensures ToUint32(BitOr(c, Shl(v, 28))) == c + v * 0x1000_0000
  {
    hide BitOr, Shl, Pow2;
    Powers28();
    OrShl(c, v, 28);
    assert v % Pow2(4) == v;
  }

  lemma Powers28()
    ensures Pow2(28) == 0x1000_0000 && Pow2(4) == 16
  {
    Powers();
    SmallPowers();
  }

  lemma SameWord(r: int, x: int)
    requires -0x8000_0000 <= r < 0x8000_0000 && ToUint32(r) == ToUint32(x)
    ensures r == ToInt32(x)
  {
  }

  lemma TopGroup(v: nat, b: nat)
    requires v < 0x1000_0000
    ensures (v + b % 128 * 0x1000_0000) % 0x1_0000_0000 == v + b % 16 * 0x1000_0000
  {
    var h := Nibbles(b);
    TopSum(v, h, b % 16);
  }

  lemma Nibbles(b: nat) returns (h: nat)
    ensures b % 128 == 16 * h + b % 16
  {
    var q, r := b / 128, b % 128;
    h := r / 16;
    DivModUnique(b, 16, 8 * q + h, r % 16);
  }

  lemma TopSum(v: nat, h: nat, l: nat)
    requires v < 0x1000_0000 && l < 16
    ensures (v + (16 * h + l) * 0x1000_0000) % 0x1_0000_0000 == v + l * 0x1000_0000
  {
    var x, r := v + (16 * h + l) * 0x1000_0000, v + l * 0x1000_0000;
    assert x == h * 0x1_0000_0000 + r;
    DivModUnique(x, 0x1_0000_0000, h, r);
  }

  class BinaryDecoder {
    const bytes: seq<byte>
    var cursor: int
    var end: int

    constructor (bytes: seq<byte>)
      ensures this.bytes == bytes && cursor == 0 && end == |bytes|
    {
      this.bytes := bytes;
      cursor := 0;
      end := |bytes|;
    }

    /** Moves the cursor and asserts that it is not past the end. */
    method Advance(n: int) returns (ok: bool)
      modifies this`cursor
      ensures cursor == old(cursor) + n && ok == (cursor <= end)
    {
      cursor := cursor + n;
      ok := cursor <= end;
    }

    /** 128 <= bytes[cursor++] */
    method Continued() returns (more: bool)
      modifies this`cursor
      ensures cursor == old(cursor) + 1 && more == Continues(Utf8.At(bytes, old(cursor)))
      ensures more ==> !Ends(Utf8.At(bytes, old(cursor))) && old(cursor) < |bytes|
    {
      more := Continues(Utf8.At(bytes, cursor));
      cursor := cursor + 1;
    }

    method ReadUnsignedVarint32() returns (r: Option<int>)
      requires cursor >= 0
      modifies this`cursor
      ensures var u := Unsigned32(bytes, old(cursor));
              && (r.Some? <==> u.Some? && old(cursor) + u.value.1 <= end)
              && (r.Some? ==> r.value == u.value.0 && cursor == old(cursor) + u.value.1)
    {
      hide *;
      ghost var c0: nat := cursor;
      var b := Utf8.At(bytes, cursor + 0);
      var c := BitAnd(Utf8.Bits8(b), 127);
      FirstGroup(bytes, c0);
      OpenNone(bytes, c0);
      if Ends(b) {
        StopsAt(bytes, c0, 1);
        Low7Small(bytes, c0, 1);
        var ok := Advance(1);
        return if ok then Some(c) else None;
      }
      OpenStep(bytes, c0, 0);
      b := Utf8.At(bytes, cursor + 1);
      Gather(bytes, c0, c, 1);
      c := BitOr(c, Shl(BitAnd(Utf8.Bits8(b), 127), 7));
      if Ends(b) {
        StopsAt(bytes, c0, 2);
        Low7Small(bytes, c0, 2);
        var ok := Advance(2);
        return if ok then Some(c) else None;
      }
      OpenStep(bytes, c0, 1);
      b := Utf8.At(bytes, cursor + 2);
      Gather(bytes, c0, c, 2);
      c := BitOr(c, Shl(BitAnd(Utf8.Bits8(b), 127), 14));
      if Ends(b) {
        StopsAt(bytes, c0, 3);
        Low7Small(bytes, c0, 3);
        var ok := Advance(3);
        return if ok then Some(c) else None;
      }
      OpenStep(bytes, c0, 2);
      b := Utf8.At(bytes, cursor + 3);
      Gather(bytes, c0, c, 3);
      c := BitOr(c, Shl(BitAnd(Utf8.Bits8(b), 127), 21));
      if Ends(b) {
        StopsAt(bytes, c0, 4);
        Low7Small(bytes, c0, 4);
        var ok := Advance(4);
        return if ok then Some(c) else None;
      }
      OpenStep(bytes, c0, 3);
      b := Utf8.At(bytes, cursor + 4);
      GatherTop(bytes, c0, c);
      c := BitOr(c, Shl(BitAnd(Utf8.Bits8(b), 15), 28));
      if Ends(b) {
        StopsAt(bytes, c0, 5);
        var ok := Advance(5);
        return if ok then Some(Shr(c, 0)) else None;
      }
      OpenStep(bytes, c0, 4);
      r := SkipHighGroups(c, c0);
    }

    method ReadSignedVarint32() returns (r: Option<int>)
      requires cursor >= 0
      modifies this`cursor
      ensures var u := Unsigned32(bytes, old(cursor));
              && (r.Some? <==> u.Some? && old(cursor) + u.value.1 <= end)
              && (r.Some? ==> r.value == ToInt32(u.value.0) && cursor == old(cursor) + u.value.1)
    {
      hide Unsigned32, ToInt32;
      var u := ReadUnsignedVarint32();
      if u.None? { return None; }
      NotNot(u.value);
      r := Some(BitNot(BitNot(u.value)));
    }

    /** The sixth to tenth bytes only carry bits above the 32nd. */
    method SkipHighGroups(c: int, ghost c0: nat) returns (r: Option<int>)
      requires cursor == c0 && Open(bytes, c0, 5) && c == ToInt32(Low7(bytes, c0, 5))
      modifies this`cursor
      ensures var u := Unsigned32(bytes, c0);
              && (r.Some? <==> u.Some? && c0 + u.value.1 <= end)
              && (r.Some? ==> r.value == u.value.0 && cursor == c0 + u.value.1)
    {
      hide *;
      cursor := cursor + 5;
      var more := Continued();
      if more { OpenStep(bytes, c0, 5); more := Continued(); }
      if more { OpenStep(bytes, c0, 6); more := Continued(); }
      if more { OpenStep(bytes, c0, 7); more := Continued(); }
      if more { OpenStep(bytes, c0, 8); more := Continued(); }
      if more {
        OpenStep(bytes, c0, 9);
        Overrun(bytes, c0);
        return None;
      }
      HighEnd(bytes, c0, cursor - c0);
      if !(cursor <= end) { return None; }
      r := Some(c);
    }

    /** The value comes as two halves. */
    method ReadSplitVarint64() returns (r: Option<(u32, u32)>)
      requires cursor >= 0
      modifies this`cursor
      ensures var u := Split64(bytes, old(cursor));
              && (r.Some? <==> u.Some?)
              && (r.Some? ==> Join(r.value.0, r.value.1) == u.value.0 && cursor == old(cursor) + u.value.1)
    {
      hide *;
      ghost var c0: nat := cursor;
      var b: Option<byte> := Some(128);
      var c, d, e := 0, 0, 0;
      StartGroups(bytes, c0);
      while e < 4 && Continues(b)
        invariant 0 <= e <= 4 && cursor == c0 + e && d == 0
        invariant c == Low7(bytes, c0, e) && Looked(bytes, c0, e, b) && (e == 0 ==> Continues(b))
      {
        LookedNext(bytes, c0, e, b);
        b := Utf8.At(bytes, cursor);
        cursor := cursor + 1;
        Gather(bytes, c0, c, e);
        c := BitOr(c, Shl(BitAnd(Utf8.Bits8(b), 127), 7 * e));
        e := e + 1;
      }
      SmallWord(bytes, c0, c, e);
      if Continues(b) {
        LookedNext(bytes, c0, 4, b);
        b := Utf8.At(bytes, cursor);
        cursor := cursor + 1;
        GatherFifth(bytes, c0, c);
        c := BitOr(c, Shl(BitAnd(Utf8.Bits8(b), 127), 28));
        d := BitOr(d, Sar(BitAnd(Utf8.Bits8(b), 127), 4));
      }
      if Continues(b) {
        e := 0;
        while e < 5 && Continues(b)
          invariant 0 <= e <= 5 && cursor == c0 + 5 + e
          invariant Word(c, d) == Low64(bytes, c0, 5 + e) && Looked(bytes, c0, 5 + e, b)
        {
          LookedNext(bytes, c0, 5 + e, b);
          b := Utf8.At(bytes, cursor);
          cursor := cursor + 1;
          GatherHigh(bytes, c0, c, d, e);
          d := BitOr(d, Shl(BitAnd(Utf8.Bits8(b), 127), 7 * e + 3));
          e := e + 1;
        }
      }
      VarintEnd(bytes, c0, cursor - c0, b, c, d);
      if Ends(b) {
        return Some((Shr(c, 0), Shr(d, 0)));
      }
      r := None;
    }

    method SkipVarint()
      requires cursor >= 0
      modifies this`cursor
      ensures cursor == AfterVarint(bytes, old(cursor))
    {
      while BitAnd(Utf8.Bits8(Utf8.At(bytes, cursor)), 128) != 0
        invariant cursor >= 0 && AfterVarint(bytes, cursor) == AfterVarint(bytes, old(cursor))
        decreases |bytes| - cursor
      {
        hide BitAnd;
        TopBit(Utf8.Bits8(Utf8.At(bytes, cursor)));
        cursor := cursor + 1;
      }
      TopBit(Utf8.Bits8(Utf8.At(bytes, cursor)));
      cursor := cursor + 1;
    }

    /** Reads len bytes of UTF-8 (more if a character straddles the limit). The units are
        collected in batches of 8192; the end of the block is not checked. */
    method ReadString(len: int) returns (r: seq<Utf8.unit>)
      modifies this`cursor
      ensures var u := Utf8.Decode(bytes, old(cursor), old(cursor) + len); r == u.0 && cursor == u.1
    {
      hide *;
      var b, c := bytes, cursor;
      var a := c + len;
      ghost var all := Utf8.Decode(bytes, c, a);
      var d: seq<Utf8.unit>, e: seq<Utf8.unit> := [], [];
      DecodeStart(bytes, c, a);
      while c < a
        invariant cursor == old(cursor)
        invariant Decoded(bytes, c, a, e + d, all)
        decreases a - c
      {
        DecodeStep(bytes, c, a, e + d, all);
        UnitCases(b, c);
        var f := Utf8.At(b, c);
        ghost var done := e + d;
        ghost var u := Utf8.Unit(b, c);
        c := c + 1;
        if f.Some? && f.value < 128 {
          d := d + [f.value];
        } else if f.Some? && f.value < 192 {
          NothingAdded(e, d);
          continue;
        } else if f.Some? && f.value < 224 {
          var g := Utf8.Bits8(Utf8.At(b, c));
          c := c + 1;
          TwoUnits(f.value, g);
          d := d + [BitOr(Shl(BitAnd(f.value, 31), 6), BitAnd(g, 63))];
        } else if f.Some? && f.value < 240 {
          var g, h := Utf8.Bits8(Utf8.At(b, c)), Utf8.Bits8(Utf8.At(b, c + 1));
          c := c + 2;
          ThreeUnits(f.value, g, h);
          d := d + [BitOr(BitOr(Shl(BitAnd(f.value, 15), 12), Shl(BitAnd(g, 63), 6)), BitAnd(h, 63))];
        } else if f.Some? && f.value < 248 {
          var g, h, k := Utf8.Bits8(Utf8.At(b, c)), Utf8.Bits8(Utf8.At(b, c + 1)), Utf8.Bits8(Utf8.At(b, c + 2));
          c := c + 3;
          FourUnits(f.value, g, h, k);
          var x := BitOr(BitOr(BitOr(Shl(BitAnd(f.value, 7), 18), Shl(BitAnd(g, 63), 12)), Shl(BitAnd(h, 63), 6)), BitAnd(k, 63));
          x := x - 0x1_0000;
          d := d + [BitAnd(Sar(x, 10), 1023) + 0xD800, BitAnd(x, 1023) + 0xDC00];
        }
        assert e + d == done + u.0;
        if 8192 <= |d| {
          e := e + d;
          d := [];
          NothingAdded(e, d);
        }
      }
      DecodeDone(bytes, c, a, e + d, all);
      cursor := c;
      r := e + d;
    }
  }

  // ------------------------------------------------------------ the groups of readSplitVarint64

  /** After n positions, b is the last byte looked at and no earlier one ended the varint. */
  ghost predicate Looked(bytes: seq<byte>, c: nat, n: nat, b: Option<byte>) {
    if n == 0 then b == Some(128)
    else b == Utf8.At(bytes, c + n - 1) && Open(bytes, c, n - 1)
  }

  /** The 64 bits held by the two accumulators. */
  ghost function Word(c: int, d: int): nat {
    Join(ToUint32(c), ToUint32(d))
  }

  ghost function Low64(bytes: seq<byte>, c: nat, n: nat): nat {
    Low7(bytes, c, n) % 0x1_0000_0000_0000_0000
  }

  lemma StartGroups(bytes: seq<byte>, c: nat)
    ensures Low7(bytes, c, 0) == 0 && Looked(bytes, c, 0, Some(128)) && Continues(Some(128))
  {
  }

  lemma LookedNext(bytes: seq<byte>, c: nat, n: nat, b: Option<byte>)
    requires Looked(bytes, c, n, b) && Continues(b)
    ensures Looked(bytes, c, n + 1, Utf8.At(bytes, c + n))
  {
  }

  lemma SmallWord(bytes: seq<byte>, c0: nat, c: int, n: nat)
    requires n <= 4 && c == Low7(bytes, c0, n)
    ensures Word(c, 0) == Low64(bytes, c0, n)
  {
    Low7Small(bytes, c0, n);
  }

  /** The fifth group: four bits below the word boundary and three above. */
  lemma GatherFifth(bytes: seq<byte>, c0: nat, c: int)
    requires c == Low7(bytes, c0, 4)
    ensures var g := BitAnd(Utf8.Bits8(Utf8.At(bytes, c0 + 4)), 127);
            Word(BitOr(c, Shl(g, 28)), BitOr(0, Sar(g, 4))) == Low64(bytes, c0, 5)
  {
    hide BitOr, BitAnd, Shl, Sar, Pow2, Low7, ToUint32, Low, Utf8.At, Utf8.Bits8;
    var b: int := Utf8.Bits8(Utf8.At(bytes, c0 + 4));
    var v := b % 128;
    Masks(b);
    LowIs(Utf8.At(bytes, c0 + 4));
    Powers28();
    Low7Snoc(bytes, c0, 4);
    OrShl(c, v, 28);
    SarSmall(v, 4);
    OrZero(v / 16);
    ToUint32Is(c);
    ToUint32Is(v / 16);
    FifthSum(c, v);
  }

  lemma OrZero(x: nat)
    requires x < 0x8000_0000
    ensures BitOr(0, x) == x
  {
  }

  lemma FifthSum(c: nat, v: nat)
    requires c < 0x1000_0000 && v < 128
    ensures v / 16 * 0x1_0000_0000 + (c + v % 16 * 0x1000_0000) == (c + v * 0x1000_0000) % 0x1_0000_0000_0000_0000
  {
    assert v == 16 * (v / 16) + v % 16;
  }

  /** The groups above the fifth; only one bit of the tenth is left. */
  lemma GatherHigh(bytes: seq<byte>, c0: nat, c: int, d: int, e: nat)
    requires e <= 4 && Word(c, d) == Low64(bytes, c0, 5 + e)
    ensures Word(c, BitOr(d, Shl(BitAnd(Utf8.Bits8(Utf8.At(bytes, c0 + 5 + e)), 127), 7 * e + 3))) == Low64(bytes, c0, 6 + e)
  {
    hide BitOr, BitAnd, Shl, Pow2, Low7, ToUint32, Utf8.At, Utf8.Bits8;
    var b: int := Utf8.Bits8(Utf8.At(bytes, c0 + 5 + e));
    var v := b % 128;
    Masks(b);
    LowIs(Utf8.At(bytes, c0 + (5 + e)));
    Low7Snoc(bytes, c0, 5 + e);
    var w, k := Low7(bytes, c0, 5 + e), 7 * e + 3;
    var m, p := Pow2(32 - k), Pow2(k);
    HighPowers(k);
    assert w < 0x1_0000_0000 * p && w == Word(c, d);
    HalfBound(w, ToUint32(c), ToUint32(d), p);
    OrShl(d, v, k);
    hide Low, Low64;
    HighSum(w, v, m, p);
    Low64Is(bytes, c0, 6 + e);
  }

  lemma LowIs(b: Option<byte>)
    ensures Low(b) == Utf8.Bits8(b) % 128
  {
  }

  lemma Low64Is(bytes: seq<byte>, c: nat, n: nat)
    ensures Low64(bytes, c, n) == Low7(bytes, c, n) % 0x1_0000_0000_0000_0000
  {
    hide Low7;
  }

  lemma HalfBound(w: nat, lo: u32, hi: u32, p: nat)
    requires w == Join(lo, hi) && w < 0x1_0000_0000 * p
    ensures hi < p
  {
  }

  lemma HighPowers(k: nat)
    requires k <= 31
    ensures Pow2(32 + k) == 0x1_0000_0000 * Pow2(k) <= 0x8000_0000_0000_0000
    ensures Pow2(32 - k) * Pow2(k) == 0x1_0000_0000
  {
    hide Pow2;
    Pow2Words();
    Pow2Add(32, k);
    Pow2Add(32 - k, k);
    Pow2Mono(32 + k, 63);
  }

  lemma HighSum(w: nat, v: nat, m: nat, p: nat)
    requires m * p == 0x1_0000_0000 && m > 0 && w < 0x1_0000_0000 * p
    ensures v * (0x1_0000_0000 * p) >= 0
    ensures w + (v % m * p) * 0x1_0000_0000 == (w + v * (0x1_0000_0000 * p)) % 0x1_0000_0000_0000_0000
  {
    var q, y := ShiftedGroup(v, m, p);
    MulAssoc(v, 0x1_0000_0000, p);
    MulAssoc(0x1_0000_0000, v, p);
    WordSum(w, v * p, q, y);
  }

  /** v shifted left loses its multiples of m. */
  lemma ShiftedGroup(v: nat, m: nat, p: nat) returns (q: nat, y: nat)
    requires m * p == 0x1_0000_0000 && m > 0
    ensures y == v % m * p && y <= 0x1_0000_0000 - p && v * p == q * 0x1_0000_0000 + y
  {
    q := v / m;
    var r := v % m;
    MulMono(0, r, p);
    y := r * p;
    MulAssoc(q, m, p);
    MulDist(q * m, r, p);
    MulMono(r, m - 1, p);
    MulDist(m, 1, p);
  }

  lemma WordSum(w: nat, x: int, q: nat, y: nat)
    requires x == q * 0x1_0000_0000 + y && w + y * 0x1_0000_0000 < 0x1_0000_0000_0000_0000
    ensures w + y * 0x1_0000_0000 == (w + x * 0x1_0000_0000) % 0x1_0000_0000_0000_0000
  {
    DivModUnique(w + x * 0x1_0000_0000, 0x1_0000_0000_0000_0000, q, w + y * 0x1_0000_0000);
  }

  lemma VarintEnd(bytes: seq<byte>, c0: nat, n: nat, b: Option<byte>, c: int, d: int)
    requires 1 <= n <= 10 && Looked(bytes, c0, n, b) && Word(c, d) == Low64(bytes, c0, n)
    requires n < 10 ==> !Continues(b)
    ensures Ends(b) ==> Split64(bytes, c0) == Some((Join(Shr(c, 0), Shr(d, 0)), n))
    ensures !Ends(b) ==> Split64(bytes, c0) == None
  {
    hide Low7, Shr, ToUint32, VarintLen, Payload, Unsigned32;
    ShrZero(c);
    ShrZero(d);
    if Ends(b) {
      StopsAt(bytes, c0, n);
    } else if Continues(b) {
      Overrun(bytes, c0);
    } else {
      NoEnd(bytes, c0, n);
    }
  }

  lemma NoEnd(bytes: seq<byte>, c: nat, n: nat)
    requires 1 <= n <= 10 && Open(bytes, c, n - 1) && c + n > |bytes|
    ensures VarintLen(bytes, c, 10) == 0
  {
    if c < |bytes| {
      RunLength(bytes, c, |bytes| - c, 10);
    }
  }

  /** x & 128 */
  lemma TopBit(x: byte)
    ensures BitAnd(x, 128) == if x < 128 then 0 else 128
  {
    hide And;
    SmallPowers();
    AndTopBit(x, 7);
  }

  // ------------------------------------------------------------ readString

  /** What is left to read completes `done` to the whole reading. */
  ghost predicate Decoded(bytes: seq<byte>, c: int, a: int, done: seq<Utf8.unit>, all: (seq<Utf8.unit>, int)) {
    done + Utf8.Decode(bytes, c, a).0 == all.0 && Utf8.Decode(bytes, c, a).1 == all.1
  }

  lemma DecodeStart(bytes: seq<byte>, c: int, a: int)
    ensures Decoded(bytes, c, a, [] + [], Utf8.Decode(bytes, c, a))
  {
    hide Utf8.Decode;
    var u := Utf8.Decode(bytes, c, a).0;
    assert [] + [] + u == u;
  }

  lemma DecodeStep(bytes: seq<byte>, c: int, a: int, done: seq<Utf8.unit>, all: (seq<Utf8.unit>, int))
    requires c < a && Decoded(bytes, c, a, done, all)
    ensures var (u, n) := Utf8.Unit(bytes, c); Decoded(bytes, c + n, a, done + u, all)
  {
    hide Utf8.Unit;
    var (u, n) := Utf8.Unit(bytes, c);
    SeqAssoc(done, u, Utf8.Decode(bytes, c + n, a).0);
  }

  lemma DecodeDone(bytes: seq<byte>, c: int, a: int, done: seq<Utf8.unit>, all: (seq<Utf8.unit>, int))
    requires c >= a && Decoded(bytes, c, a, done, all)
    ensures all == (done, c)
  {
    assert done + [] == done;
  }

  lemma NothingAdded(e: seq<Utf8.unit>, d: seq<Utf8.unit>)
    ensures e + [] == e && e + d + [] == e + d
  {
  }

  lemma TwoUnits(f: byte, g: byte)
    ensures BitOr(Shl(BitAnd(f, 31), 6), BitAnd(g, 63)) == f % 32 * 64 + g % 64
  {
    hide *;
    Masks(f);
    Masks(g);
    SmallPowers();
    ShlSmall(f % 32, 6);
    Multiple(f % 32, 64);
    OrSum(f % 32 * 64, g % 64, 6);
  }

  lemma ThreeUnits(f: byte, g: byte, h: byte)
    ensures BitOr(BitOr(Shl(BitAnd(f, 15), 12), Shl(BitAnd(g, 63), 6)), BitAnd(h, 63))
         == f % 16 * 0x1000 + g % 64 * 64 + h % 64
  {
    hide *;
    Masks(f);
    Masks(g);
    Masks(h);
    SmallPowers();
    Powers();
    ShlSmall(f % 16, 12);
    ShlSmall(g % 64, 6);
    Multiple(f % 16, 0x1000);
    Multiple(f % 16 * 64 + g % 64, 64);
    OrSum(f % 16 * 0x1000, g % 64 * 64, 12);
    OrSum(f % 16 * 0x1000 + g % 64 * 64, h % 64, 6);
  }

  lemma FourUnits(f: byte, g: byte, h: byte, k: byte)
    ensures var x := BitOr(BitOr(BitOr(Shl(BitAnd(f, 7), 18), Shl(BitAnd(g, 63), 12)), Shl(BitAnd(h, 63), 6)), BitAnd(k, 63)) - 0x1_0000;
            && x == f % 8 * 0x4_0000 + g % 64 * 0x1000 + h % 64 * 64 + k % 64 - 0x1_0000
            && BitAnd(Sar(x, 10), 1023) == x / 1024 % 1024 && BitAnd(x, 1023) == x % 1024
  {
    hide *;
    Masks(f);
    Masks(g);
    Masks(h);
    Masks(k);
    OrFour(f % 8, g % 64, h % 64, k % 64);
    SurrogateHalves(f % 8 * 0x4_0000 + g % 64 * 0x1000 + h % 64 * 64 + k % 64 - 0x1_0000);
  }

  lemma OrFour(a: nat, b: nat, c: nat, d: nat)
    requires a < 8 && b < 64 && c < 64 && d < 64
    ensures BitOr(BitOr(BitOr(Shl(a, 18), Shl(b, 12)), Shl(c, 6)), d) == a * 0x4_0000 + b * 0x1000 + c * 64 + d
  {
    hide *;
    SmallPowers();
    Powers();
    var p, q, r := a * 0x4_0000, b * 0x1000, c * 64;
    ShlSmall(a, 18);
    ShlSmall(b, 12);
    ShlSmall(c, 6);
    Multiple(a, 0x4_0000);
    Multiple(a * 64 + b, 0x1000);
    Multiple(a * 0x1000 + b * 64 + c, 64);
    OrSum(p, q, 18);
    OrSum(p + q, r, 12);
    OrSum(p + q + r, d, 6);
  }

  lemma Multiple(q: nat, m: nat)
    requires m > 0
    ensures q * m % m == 0
  {
    DivModUnique(q * m, m, q, 0);
  }

  /** The two ten-bit halves of a code point less 2^16 (negative if it was overlong). */
  lemma SurrogateHalves(x: int)
    requires -0x1_0000 <= x < 0x20_0000
    ensures BitAnd(Sar(x, 10), 1023) == x / 1024 % 1024 && BitAnd(x, 1023) == x % 1024
  {
    hide *;
    Powers();
    SarSmall(x, 10);
    MaskValue(x / 1024, 10);
    MaskValue(x, 10);
  }

  /** The cases of Unit, by the lead byte. */
  lemma UnitCases(b: seq<byte>, c: int)
    ensures var f, u := Utf8.At(b, c), Utf8.Unit(b, c);
            var g: nat, h: nat, k: nat := Utf8.Bits8(Utf8.At(b, c + 1)), Utf8.Bits8(Utf8.At(b, c + 2)), Utf8.Bits8(Utf8.At(b, c + 3));
            && (f.None? ==> u == ([], 1))
            && (f.Some? && f.value < 128 ==> u == ([f.value], 1))
            && (f.Some? && 128 <= f.value < 192 ==> u == ([], 1))
            && (f.Some? && 192 <= f.value < 224 ==> u.1 == 2 && |u.0| == 1 && u.0[0] == f.value % 32 * 64 + g % 64)
            && (f.Some? && 224 <= f.value < 240 ==>
                u.1 == 3 && |u.0| == 1 && u.0[0] == f.value % 16 * 0x1000 + g % 64 * 64 + h % 64)
            && (f.Some? && 240 <= f.value < 248 ==>
                var x := f.value % 8 * 0x4_0000 + g % 64 * 0x1000 + h % 64 * 64 + k % 64 - 0x1_0000;
                u.1 == 4 && |u.0| == 2 && u.0[0] == x / 1024 % 1024 + 0xD800 && u.0[1] == x % 1024 + 0xDC00)
            && (f.Some? && f.value >= 248 ==> u == ([], 1))
  {
  }

  /** ~~x */
  lemma NotNot(x: int)
    ensures BitNot(BitNot(x)) == ToInt32(x)
  {
  }

  lemma FirstGroup(bytes: seq<byte>, c: nat)
    ensures BitAnd(Utf8.Bits8(Utf8.At(bytes, c)), 127) == Low7(bytes, c, 1)
  {
    hide BitAnd;
    Masks(Utf8.Bits8(Utf8.At(bytes, c)));
    assert Low7(bytes, c + 1, 0) == 0;
  }

  lemma Low7Small(bytes: seq<byte>, c: nat, n: nat)
    requires n <= 4
    ensures ToUint32(Low7(bytes, c, n)) == Low7(bytes, c, n)
  {
    hide Low7, Pow2;
    Low7Snoc(bytes, c, n);
    Powers();
    Pow2Mono(7 * n, 28);
  }
}
