/** Well-formed records of the wire format, whatever their field number, and the proof that the
    reader's skipping steps over exactly one of them. */
module Records {
  import opened Bits
  import opened Common
  import opened Doubles
  import opened Js
  import opened Varints
  import opened WireFormat
  import opened BinaryDecoder
  import opened BinaryReader

  type nonempty = s: seq<byte> | |s| >= 1 witness [0]

  /** A record is its number, its tag and its payload. Tags, lengths and numbers may be any byte
      string that ends a varint, not only the canonical encoding. A Message is a delimited field
      whose bytes are records themselves. */
  datatype Record =
    | VarintRecord(num: nat, tag: nonempty, raw: seq<byte>)
    | Fixed64Record(num: nat, tag: nonempty, raw: seq<byte>)
    | Fixed32Record(num: nat, tag: nonempty, raw: seq<byte>)
    | BytesRecord(num: nat, tag: nonempty, length: seq<byte>, raw: seq<byte>)
    | MessageRecord(num: nat, tag: nonempty, length: seq<byte>, fields: seq<Record>)
    | GroupRecord(num: nat, tag: nonempty, fields: seq<Record>, endTag: seq<byte>)

  function Wire(r: Record): (w: nat)
    ensures w <= 5 && w != END_GROUP
  {
    match r
    case VarintRecord(_, _, _) => VARINT
    case Fixed64Record(_, _, _) => FIXED64
    case Fixed32Record(_, _, _) => FIXED32
    case BytesRecord(_, _, _, _) => DELIMITED
    case MessageRecord(_, _, _, _) => DELIMITED
    case GroupRecord(_, _, _, _) => START_GROUP
  }

  function Body(r: Record): seq<byte>
    decreases r, 0
  {
    match r
    case VarintRecord(_, _, raw) => raw
    case Fixed64Record(_, _, raw) => raw
    case Fixed32Record(_, _, raw) => raw
    case BytesRecord(_, _, length, raw) => length + raw
    case MessageRecord(_, _, length, fields) => length + EncodeAll(fields)
    case GroupRecord(_, _, fields, endTag) => EncodeAll(fields) + endTag
  }

  function Encode(r: Record): (s: seq<byte>)
    ensures |s| >= 1
    decreases r, 1
  {
    r.tag + Body(r)
  }

  function EncodeAll(rs: seq<Record>): (s: seq<byte>)
    ensures |s| >= |rs|
    decreases rs
  {
    if rs == [] then [] else Encode(rs[0]) + EncodeAll(rs[1..])
  }

  predicate IsVarint(raw: seq<byte>) { |raw| >= 1 && VarintLen(raw, 0, |raw|) == |raw| }

  /** The number the 32-bit reader makes of a varint: from six bytes on it is signed. */
  function Word32(raw: seq<byte>): int {
    var v := Payload(raw, 0, |raw|);
    if |raw| <= 5 then ToUint32(v) else ToInt32(v)
  }

  predicate IsTag(raw: seq<byte>, num: nat, wire: nat) {
    IsVarint(raw) && |raw| <= 10 && ToUint32(Word32(raw)) == 8 * num + wire
  }

  predicate IsLength(raw: seq<byte>, n: nat) { IsVarint(raw) && |raw| <= 10 && Word32(raw) == n }

  predicate WellFormed(r: Record)
    decreases r
  {
    && IsTag(r.tag, r.num, Wire(r))
    && match r
       case VarintRecord(_, _, raw) => IsVarint(raw)
       case Fixed64Record(_, _, raw) => |raw| == 8
       case Fixed32Record(_, _, raw) => |raw| == 4
       case BytesRecord(_, _, length, raw) => IsLength(length, |raw|)
       case MessageRecord(_, _, length, fields) => AllWellFormed(fields) && IsLength(length, |EncodeAll(fields)|)
       case GroupRecord(_, _, fields, endTag) => AllWellFormed(fields) && IsTag(endTag, r.num, END_GROUP)
  }

  predicate AllWellFormed(rs: seq<Record>)
    decreases rs
  {
    rs == [] || (WellFormed(rs[0]) && AllWellFormed(rs[1..]))
  }

  // ------------------------------------------------------------ what the writers produce

  function CanonicalVarint(num: nat, raw: seq<byte>): Record { VarintRecord(num, Header(num, VARINT), raw) }

  function CanonicalBytes(num: nat, raw: seq<byte>): Record {
    BytesRecord(num, Header(num, DELIMITED), Varint(|raw|), raw)
  }

  function CanonicalMessage(num: nat, fields: seq<Record>): Record {
    MessageRecord(num, Header(num, DELIMITED), Varint(|EncodeAll(fields)|), fields)
  }

  lemma CanonicalWord(v: u32)
    ensures IsVarint(Varint(v)) && |Varint(v)| <= 5 && Word32(Varint(v)) == v
  {
    hide Varint, VarintLen, Payload;
    VarintLength32(v);
    VarintReads(Varint(v), 0, v, |Varint(v)|);
  }

  lemma CanonicalTag(num: nat, wire: nat)
    requires num < 0x2000_0000 && wire <= 5
    ensures IsTag(Header(num, wire), num, wire)
  {
    hide Varint, IsVarint, Word32;
    CanonicalWord(8 * num + wire);
  }

  lemma CanonicalLength(n: u32)
    ensures IsLength(Varint(n), n)
  {
    hide Varint, IsVarint, Word32;
    CanonicalWord(n);
  }

  // ------------------------------------------------------------ reading one record

  lemma WordReads(bytes: seq<byte>, c: nat, raw: seq<byte>)
    requires IsVarint(raw) && |raw| <= 10 && Occurs(bytes, c, raw)
    ensures Unsigned32(bytes, c) == Some((Word32(raw), |raw|))
  {
    MoreRoom(raw, 0, |raw|, 10);
    RawReads(bytes, c, raw, 0, 10);
    hide VarintLen, Payload, ToUint32, ToInt32;
  }

  lemma HeaderReads(bytes: seq<byte>, c: nat, end: int, tag: seq<byte>, num: nat, wire: nat)
    requires IsTag(tag, num, wire) && wire <= 5
    requires Occurs(bytes, c, tag) && c + |tag| <= end
    ensures FieldAt(bytes, c, end) == Field(num, wire, c + |tag|)
  {
    hide Unsigned32, Word32, VarintLen, ToUint32;
    WordReads(bytes, c, tag);
    TagParts(Word32(tag), num, wire);
  }

  lemma TagParts(a: int, num: nat, wire: nat)
    requires ToUint32(a) == 8 * num + wire && wire <= 5
    ensures a % 8 == wire && ToUint32(a) / 8 == num
  {
    var q := a / 0x1_0000_0000;
    DivModUnique(a, 8, q * 0x2000_0000 + num, wire);
    DivModUnique(8 * num + wire, 8, num, wire);
  }

  lemma LengthReads(bytes: seq<byte>, c: nat, end: int, length: seq<byte>, body: seq<byte>)
    requires IsLength(length, |body|)
    requires Occurs(bytes, c, length + body) && c + |length| <= end
    ensures LengthAt(bytes, c, end) == Some((|body|, c + |length|))
    ensures Occurs(bytes, c + |length|, body)
  {
    hide Unsigned32, Word32, VarintLen;
    OccursSplit(bytes, c, length, body);
    WordReads(bytes, c, length);
  }

  /** A varint in place is the varint by itself. */
  lemma {:induction false} RawReads(bytes: seq<byte>, c: nat, raw: seq<byte>, i: nat, limit: nat)
    requires Occurs(bytes, c, raw) && i <= |raw| && VarintLen(raw, i, limit) == |raw| - i > 0
    ensures AfterVarint(bytes, c + i) == c + |raw|
    ensures VarintLen(bytes, c + i, limit) == |raw| - i
    ensures Payload(bytes, c + i, |raw| - i) == Payload(raw, i, |raw| - i)
    decreases |raw| - i
  {
    assert bytes[c + i] == raw[i];
    if bytes[c + i] >= 128 {
      RawReads(bytes, c, raw, i + 1, limit - 1);
      assert c + i + 1 == c + (i + 1);
    }
  }

  lemma {:induction false} MoreRoom(raw: seq<byte>, i: nat, n: nat, limit: nat)
    requires n <= limit && VarintLen(raw, i, n) > 0
    ensures VarintLen(raw, i, limit) == VarintLen(raw, i, n)
    decreases n
  {
    if raw[i] >= 128 { MoreRoom(raw, i + 1, n - 1, limit - 1); }
  }

  lemma SkipsVarint(bytes: seq<byte>, c: nat, raw: seq<byte>)
    requires IsVarint(raw) && Occurs(bytes, c, raw)
    ensures AfterVarint(bytes, c) == c + |raw|
  {
    RawReads(bytes, c, raw, 0, |raw|);
  }

  lemma SkipsDelimited(bytes: seq<byte>, c: nat, end: int, num: nat, length: seq<byte>, body: seq<byte>, fuel: nat)
    requires IsLength(length, |body|) && Occurs(bytes, c, length + body) && c + |length + body| <= end
    ensures FieldEnd(bytes, c, end, num, DELIMITED, fuel) == Done(c + |length + body|)
  {
    hide LengthAt, IsLength;
    LengthReads(bytes, c, end, length, body);
  }

  /** Skipping goes exactly past the record's body. */
  lemma {:induction false} SkipsRecord(bytes: seq<byte>, c: nat, end: int, r: Record, fuel: nat)
    requires WellFormed(r) && Occurs(bytes, c, Body(r)) && c + |Body(r)| <= end && fuel > |Body(r)|
    ensures FieldEnd(bytes, c, end, r.num, Wire(r), fuel) == Done(c + |Body(r)|)
    decreases r, 0
  {
    hide AfterVarint, LengthAt, GroupEnd, IsLength, IsTag, IsVarint, Occurs;
    match r
    case VarintRecord(_, _, raw) => SkipsVarint(bytes, c, raw);
    case Fixed64Record(_, _, raw) =>
    case Fixed32Record(_, _, raw) =>
    case BytesRecord(num, _, length, raw) => SkipsDelimited(bytes, c, end, num, length, raw, fuel);
    case MessageRecord(num, _, length, fields) => SkipsDelimited(bytes, c, end, num, length, EncodeAll(fields), fuel);
    case GroupRecord(num, _, fields, endTag) => SkipsGroup(bytes, c, end, num, fields, endTag, fuel);
  }

  /** Skipping a group passes all records inside, nested groups included, and its end tag. */
  lemma {:induction false} SkipsGroup(bytes: seq<byte>, c: nat, end: int, num: nat, rs: seq<Record>, endTag: seq<byte>, fuel: nat)
    requires IsTag(endTag, num, END_GROUP) && AllWellFormed(rs) && fuel > |EncodeAll(rs)|
    requires Occurs(bytes, c, EncodeAll(rs) + endTag)
    requires c + |EncodeAll(rs) + endTag| <= end
    ensures GroupEnd(bytes, c, end, num, fuel) == Done(c + |EncodeAll(rs) + endTag|)
    decreases rs
  {
    hide FieldAt, FieldEnd, Body, WellFormed, IsTag, Occurs;
    if rs == [] {
      assert EncodeAll(rs) + endTag == endTag;
      HeaderReads(bytes, c, end, endTag, num, END_GROUP);
    } else {
      var r := rs[0];
      var b, rest := Body(r), EncodeAll(rs[1..]) + endTag;
      WellFormedTag(r);
      assert EncodeAll(rs) + endTag == r.tag + (b + rest) by { ThreeParts(r.tag, b, EncodeAll(rs[1..]), endTag); }
      OccursSplit(bytes, c, r.tag, b + rest);
      OccursSplit(bytes, c + |r.tag|, b, rest);
      HeaderReads(bytes, c, end, r.tag, r.num, Wire(r));
      SkipsRecord(bytes, c + |r.tag|, end, r, fuel - 1);
      SkipsGroup(bytes, c + |r.tag| + |b|, end, num, rs[1..], endTag, fuel - 1);
    }
  }

  /** Inside a group, well-formed records are passed one after another. */
  lemma {:induction false} SkipsRecords(bytes: seq<byte>, c: nat, end: int, num: nat, rs: seq<Record>, fuel: nat)
    requires AllWellFormed(rs) && fuel > |EncodeAll(rs)| && Occurs(bytes, c, EncodeAll(rs)) && c + |EncodeAll(rs)| <= end
    ensures GroupEnd(bytes, c, end, num, fuel) == GroupEnd(bytes, c + |EncodeAll(rs)|, end, num, fuel - |rs|)
    decreases rs
  {
    hide FieldAt, FieldEnd, Body, WellFormed, IsTag, Occurs;
    if rs != [] {
      var r := rs[0];
      var b, rest := Body(r), EncodeAll(rs[1..]);
      WellFormedTag(r);
      SeqAssoc(r.tag, b, rest);
      OccursSplit(bytes, c, r.tag, b + rest);
      OccursSplit(bytes, c + |r.tag|, b, rest);
      HeaderReads(bytes, c, end, r.tag, r.num, Wire(r));
      SkipsRecord(bytes, c + |r.tag|, end, r, fuel - 1);
      SkipsRecords(bytes, c + |r.tag| + |b|, end, num, rs[1..], fuel - 1);
    }
  }

  /** After any such records a group throws at the end of its block, at an end tag with another
      number, and at a tag that cannot be read; its own end tag ends it. */
  lemma GroupOutcomes(bytes: seq<byte>, c: nat, end: int, num: nat, rs: seq<Record>, fuel: nat)
    requires AllWellFormed(rs) && fuel > |EncodeAll(rs)| && Occurs(bytes, c, EncodeAll(rs)) && c + |EncodeAll(rs)| <= end
    ensures match FieldAt(bytes, c + |EncodeAll(rs)|, end)
            case AtEnd => GroupEnd(bytes, c, end, num, fuel) == Threw
            case Broken => GroupEnd(bytes, c, end, num, fuel) == Threw
            case Field(n, w, d) =>
              w == 4 ==> GroupEnd(bytes, c, end, num, fuel) == if n == num then Done(d) else Threw
  {
    hide FieldAt, GroupEnd, EncodeAll, AllWellFormed;
    SkipsRecords(bytes, c, end, num, rs, fuel);
    ShortList(rs);
    GroupStep(bytes, c + |EncodeAll(rs)|, end, num, fuel - |rs|);
  }

  lemma ShortList(rs: seq<Record>)
    ensures |rs| <= |EncodeAll(rs)|
  {
  }

  lemma WellFormedTag(r: Record)
    requires WellFormed(r)
    ensures IsTag(r.tag, r.num, Wire(r))
  {
    hide IsTag, Wire;
  }

  lemma ThreeParts<T>(h: seq<T>, b: seq<T>, e: seq<T>, tail: seq<T>)
    ensures ((h + b) + e) + tail == h + (b + (e + tail))
  {
  }

  // ------------------------------------------------------------ signed numbers

  /** An int32 written as a varint (ten bytes when negative) is read back by the unrolled
      32-bit reader, whose result readSignedVarint32 makes signed, and by the 64-bit reader that
      readEnum uses; both consume exactly its bytes. */
  lemma SignedReads(bytes: seq<byte>, c: nat, v: int)
    requires -0x8000_0000 <= v < 0x8000_0000
    requires Occurs(bytes, c, Varint(v % 0x1_0000_0000_0000_0000))
    ensures var n, u := |Varint(v % 0x1_0000_0000_0000_0000)|, Unsigned32(bytes, c);
            && u.Some? && ToInt32(u.value.0) == v && u.value.1 == n <= 10
            && Int64At(bytes, c, VARINT) == Some((v, c + n))
  {
    hide *;
    var u: nat := v % 0x1_0000_0000_0000_0000;
    VarintLength64(u);
    VarintReads(bytes, c, u, 10);
    SameSigned(u, v);
    ReadsAs(bytes, c, |Varint(u)|, u);
    SafeIsDouble(v);
    ToDoubleIs(v);
  }

  /** What both readers make of a varint of 64 bits. */
  lemma ReadsAs(bytes: seq<byte>, c: nat, n: nat, u: nat)
    requires VarintLen(bytes, c, 10) == n > 0 && Payload(bytes, c, n) == u < 0x1_0000_0000_0000_0000
    ensures Unsigned32(bytes, c) == Some((if n <= 5 then ToUint32(u) else ToInt32(u), n))
    ensures Int64At(bytes, c, VARINT) == Some((ToDouble(Signed64(u)), c + n))
  {
    hide VarintLen, Payload, ToUint32, ToInt32, ToDouble;
    DivModUnique(u, 0x1_0000_0000_0000_0000, 0, u);
  }

  /** Every pair of halves is written in at most ten bytes and read back from exactly these. */
  lemma SplitReads(bytes: seq<byte>, c: nat, lo: u32, hi: u32)
    requires Occurs(bytes, c, Varint(Join(lo, hi)))
    ensures Split64(bytes, c) == Some((Join(lo, hi), |Varint(Join(lo, hi))|)) && |Varint(Join(lo, hi))| <= 10
    ensures forall p: u32, q: u32 :: Join(p, q) == Join(lo, hi) ==> p == lo && q == hi
  {
    hide Varint, VarintLen, Payload;
    VarintLength64(Join(lo, hi));
    VarintReads(bytes, c, Join(lo, hi), 10);
  }

  lemma SameSigned(u: nat, v: int)
    requires -0x8000_0000 <= v < 0x8000_0000 && u == v % 0x1_0000_0000_0000_0000
    ensures ToInt32(u) == v && ToInt32(ToUint32(u)) == v && ToInt32(ToInt32(u)) == v && Signed64(u) == v
  {
    if v >= 0 {
      DivModUnique(v, 0x1_0000_0000_0000_0000, 0, v);
    } else {
      DivModUnique(v, 0x1_0000_0000_0000_0000, -1, v + 0x1_0000_0000_0000_0000);
      DivModUnique(v, 0x1_0000_0000, -1, v + 0x1_0000_0000);
      DivModUnique(u, 0x1_0000_0000, 0xFFFF_FFFF, v + 0x1_0000_0000);
    }
  }

  // ------------------------------------------------------------ lists of records

  lemma {:induction false} EncodeAppend(a: seq<Record>, b: seq<Record>)
    ensures EncodeAll(a + b) == EncodeAll(a) + EncodeAll(b)
    decreases a
  {
    hide Encode;
    if a == [] {
      assert a + b == b;
    } else {
      assert (a + b)[1..] == a[1..] + b;
      EncodeAppend(a[1..], b);
      SeqAssoc(Encode(a[0]), EncodeAll(a[1..]), EncodeAll(b));
    }
  }
}
