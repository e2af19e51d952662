/** jspb.BinaryReader: fields of a message, skipping of unknown ones, and nested messages. */
module BinaryReader {
  import opened Common
  import opened Doubles
  import opened Js
  import opened Varints
  import opened WireFormat
  import opened BinaryDecoder
  import Utf8

  /** How a run over the input comes out: a value, an exception, or not finished within the
      fields it was allowed to look at. (A length that reads as negative moves the cursor back,
      so a run need not finish at all; when it does is in ParseTermination.) The methods take
      that number as `limit`, which the source does not have. */
  datatype Outcome<+T> = Done(value: T) | Threw | Unfinished

  datatype Next = AtEnd | Broken | Field(num: nat, wire: nat, cursor: nat)

  /** The field header at c in a block that stops at end. */
  function FieldAt(bytes: seq<byte>, c: int, end: int): (r: Next)
    ensures r.Field? ==> 0 <= c < r.cursor <= end && r.wire <= 5
  {
    if c == end then AtEnd
    else if c < 0 || c > end then Broken
    else match Unsigned32(bytes, c)
      case None => Broken
      case Some((a, n)) =>
        if c + n > end || a % 8 > 5 then Broken else Field(ToUint32(a) / 8, a % 8, c + n)
  }

  /** The length at c and the position after it. */
  function LengthAt(bytes: seq<byte>, c: nat, end: int): Option<(int, nat)> {
    match Unsigned32(bytes, c)
    case None => None
    case Some((a, n)) => if c + n <= end then Some((a, c + n)) else None
  }

  /** Where a field of this number and type, whose payload is at c, ends. */
  function FieldEnd(bytes: seq<byte>, c: nat, end: int, num: nat, wire: nat, fuel: nat): Outcome<int>
    decreases fuel, 1
  {
    if wire == VARINT then Done(AfterVarint(bytes, c))
    else if wire == FIXED64 then if c + 8 <= end then Done(c + 8) else Threw
    else if wire == DELIMITED then
      match LengthAt(bytes, c, end)
      case None => Threw
      case Some((a, d)) => if d + a <= end then Done(d + a) else Threw
    else if wire == FIXED32 then if c + 4 <= end then Done(c + 4) else Threw
    else if wire == START_GROUP then GroupEnd(bytes, c, end, num, fuel)
    else Threw
  }

  /** Where the group opened with this number ends: at its own end tag, fields in between being
      skipped. */
  function GroupEnd(bytes: seq<byte>, c: int, end: int, num: nat, fuel: nat): Outcome<int>
    decreases fuel, 0
  {
    if fuel == 0 then Unfinished
    else match FieldAt(bytes, c, end)
      case AtEnd => Threw
      case Broken => Threw
      case Field(n, w, c1) =>
        if w == END_GROUP then if n == num then Done(c1) else Threw
        else match FieldEnd(bytes, c1, end, n, w, fuel - 1)
          case Done(c2) => GroupEnd(bytes, c2, end, num, fuel - 1)
          case Threw => Threw
          case Unfinished => Unfinished
  }

  /** readInt64 and readEnum: the number is rounded to a double. */
  function Int64At(bytes: seq<byte>, c: nat, wire: nat): Option<(int, nat)> {
    if wire != VARINT then None
    else match Split64(bytes, c)
      case None => None
      case Some((v, n)) => Some((ToDouble(Signed64(v)), c + n))
  }

  function StringAt(bytes: seq<byte>, c: nat, end: int, wire: nat): Option<(seq<Utf8.unit>, int)> {
    if wire != DELIMITED then None
    else match LengthAt(bytes, c, end)
      case None => None
      case Some((a, d)) => Some(Utf8.Decode(bytes, d, d + a))
  }

  /** The wire types by number: 0 a varint, 1 eight bytes, 5 four bytes, 2 a length and as many
      bytes, 3 a group; 4 and all others throw. */
  lemma FieldEndIs(bytes: seq<byte>, c: nat, end: int, num: nat, wire: nat, fuel: nat)
    ensures FieldEnd(bytes, c, end, num, 0, fuel) == Done(AfterVarint(bytes, c))
    ensures FieldEnd(bytes, c, end, num, 1, fuel) == if c + 8 <= end then Done(c + 8) else Threw
    ensures FieldEnd(bytes, c, end, num, 5, fuel) == if c + 4 <= end then Done(c + 4) else Threw
    ensures match Unsigned32(bytes, c)
            case None => FieldEnd(bytes, c, end, num, 2, fuel) == Threw
            case Some((a, n)) =>
              FieldEnd(bytes, c, end, num, 2, fuel)
              == if c + n <= end && c + n + a <= end then Done(c + n + a) else Threw
    ensures FieldEnd(bytes, c, end, num, 3, fuel) == GroupEnd(bytes, c, end, num, fuel)
    ensures wire == 4 || wire > 5 ==> FieldEnd(bytes, c, end, num, wire, fuel) == Threw
  {
    hide Unsigned32, AfterVarint;
  }

  /** A tag of one byte: the wire type is its low three bits, the field number the rest. Wire
      types 6 and 7 throw; so does a position past the end of the block, or before the array. */
  lemma FieldAtIs(bytes: seq<byte>, c: int, end: int)
    ensures c == end ==> FieldAt(bytes, c, end) == AtEnd
    ensures c > end || (c < 0 && c != end) ==> FieldAt(bytes, c, end) == Broken
    ensures 0 <= c < end && c < |bytes| && bytes[c] < 128 ==>
              var tag: nat := bytes[c];
              FieldAt(bytes, c, end) == if tag % 8 > 5 then Broken else Field(tag / 8, tag % 8, c + 1)
  {
    hide VarintLen, Payload, ToUint32, ToInt32;
    if 0 <= c < end && c < |bytes| && bytes[c] < 128 { OneByte(bytes, c); }
  }

  lemma OneByte(bytes: seq<byte>, c: nat)
    requires c < |bytes| && bytes[c] < 128
    ensures Unsigned32(bytes, c) == Some((bytes[c] as int, 1))
  {
    assert Payload(bytes, c + 1, 0) == 0;
  }

  lemma GroupStep(bytes: seq<byte>, c: int, end: int, num: nat, fuel: nat)
    requires fuel > 0
    ensures var f := FieldAt(bytes, c, end);
            if !f.Field? then GroupEnd(bytes, c, end, num, fuel) == Threw
            else if f.wire == END_GROUP then
              GroupEnd(bytes, c, end, num, fuel) == if f.num == num then Done(f.cursor) else Threw
            else
              var o := FieldEnd(bytes, f.cursor, end, f.num, f.wire, fuel - 1);
              GroupEnd(bytes, c, end, num, fuel) == if o.Done? then GroupEnd(bytes, o.value, end, num, fuel - 1) else o
  {
    hide FieldAt, FieldEnd;
  }

  lemma GroupStart(bytes: seq<byte>, c: int, end: int, num: nat)
    ensures GroupEnd(bytes, c, end, num, 0) == Unfinished
  {
  }

  class BinaryReader {
    const decoder: BinaryDecoder
    var nextField: int
    var nextWireType: int

    constructor (bytes: seq<byte>)
      ensures fresh(decoder) && decoder.bytes == bytes && decoder.cursor == 0 && decoder.end == |bytes|
    {
      decoder := new BinaryDecoder(bytes);
      nextField := -1;
      nextWireType := -1;
    }

    /** False at the end of the block; None when it throws. */
    method NextField() returns (r: Option<bool>)
      modifies this, decoder`cursor
      ensures var f := FieldAt(decoder.bytes, old(decoder.cursor), decoder.end);
              && (f.AtEnd? <==> r == Some(false)) && (f.Broken? <==> r == None)
              && (f.AtEnd? ==> decoder.cursor == old(decoder.cursor))
              && (f.Field? <==> r == Some(true))
              && (f.Field? ==> nextField == f.num && nextWireType == f.wire && decoder.cursor == f.cursor)
    {
      if decoder.cursor == decoder.end { return Some(false); }
      if decoder.cursor < 0 || decoder.cursor > decoder.end { return None; }
      hide Unsigned32, BitAnd, Shr, ToUint32;
      var header := decoder.ReadUnsignedVarint32();
      if header.None? { return None; }
      var a := header.value;
      HeaderParts(a);
      var num := Shr(a, 3);
      a := BitAnd(a, 7);
      if a != VARINT && a != FIXED32 && a != FIXED64 && a != DELIMITED && a != START_GROUP && a != END_GROUP {
        return None;
      }
      nextField := num;
      nextWireType := a;
      r := Some(true);
    }

    method SkipVarintField() returns (ok: bool)
      requires decoder.cursor >= 0
      modifies decoder`cursor
      ensures ok <==> nextWireType == VARINT
      ensures ok ==> decoder.cursor == AfterVarint(decoder.bytes, old(decoder.cursor))
    {
      if nextWireType != VARINT { return false; }
      decoder.SkipVarint();
      ok := true;
    }

    method SkipDelimitedField() returns (ok: bool)
      requires decoder.cursor >= 0
      modifies decoder`cursor
      ensures var l := LengthAt(decoder.bytes, old(decoder.cursor), decoder.end);
              && (ok <==> nextWireType == DELIMITED && l.Some? && l.value.1 + l.value.0 <= decoder.end)
              && (ok ==> decoder.cursor == l.value.1 + l.value.0)
    {
      if nextWireType != DELIMITED { return false; }
      hide Unsigned32;
      var a := decoder.ReadUnsignedVarint32();
      if a.None? { return false; }
      ok := decoder.Advance(a.value);
    }

    method SkipFixedField(wire: nat, width: nat) returns (ok: bool)
      modifies decoder`cursor
      ensures ok <==> nextWireType == wire && old(decoder.cursor) + width <= decoder.end
      ensures ok ==> decoder.cursor == old(decoder.cursor) + width
    {
      if nextWireType != wire { return false; }
      ok := decoder.Advance(width);
    }

    /** Skips to the end tag of the group whose header was just read. */
    method SkipGroup(limit: nat) returns (r: Outcome<int>)
      requires nextField >= 0
      modifies this, decoder`cursor
      ensures r == GroupEnd(decoder.bytes, old(decoder.cursor), decoder.end, old(nextField), limit)
      ensures r.Done? ==> decoder.cursor == r.value
      decreases limit, 0
    {
      hide *;
      var a: nat := nextField;
      var left := limit;
      while left > 0
        invariant 0 <= left
        invariant GroupEnd(decoder.bytes, decoder.cursor, decoder.end, a, left)
               == GroupEnd(decoder.bytes, old(decoder.cursor), decoder.end, a, limit)
        invariant left <= limit
        decreases left
      {
        GroupStep(decoder.bytes, decoder.cursor, decoder.end, a, left);
        var next := NextField();
        if next != Some(true) { return Threw; }
        if nextWireType == END_GROUP { return if nextField == a then Done(decoder.cursor) else Threw; }
        left := left - 1;
        var skipped := SkipField(left);
        if !skipped.Done? { return skipped; }
      }
      GroupStart(decoder.bytes, decoder.cursor, decoder.end, a);
      r := Unfinished;
    }

    /** Skips the field whose header was just read. */
    method SkipField(limit: nat) returns (r: Outcome<int>)
      requires decoder.cursor >= 0 && nextField >= 0 && nextWireType >= 0
      modifies this, decoder`cursor
      ensures r == FieldEnd(decoder.bytes, old(decoder.cursor), decoder.end, old(nextField), old(nextWireType), limit)
      ensures r.Done? ==> decoder.cursor == r.value
      decreases limit, 1
    {
      hide LengthAt, AfterVarint, GroupEnd;
      var ok := false;
      if nextWireType == VARINT { ok := SkipVarintField(); }
      else if nextWireType == FIXED64 { ok := SkipFixedField(FIXED64, 8); }
      else if nextWireType == DELIMITED { ok := SkipDelimitedField(); }
      else if nextWireType == FIXED32 { ok := SkipFixedField(FIXED32, 4); }
      else if nextWireType == START_GROUP {
        r := SkipGroup(limit);
        return;
      }
      r := if ok then Done(decoder.cursor) else Threw;
    }

    /** Also readEnum. */
    method ReadInt64() returns (r: Option<int>)
      requires decoder.cursor >= 0 && nextWireType >= 0
      modifies decoder`cursor
      ensures var v := Int64At(decoder.bytes, old(decoder.cursor), nextWireType);
              (r.Some? <==> v.Some?) && (r.Some? ==> r.value == v.value.0 && decoder.cursor == v.value.1)
    {
      if nextWireType != VARINT { return None; }
      hide Split64, JoinInt64, Join, Signed64, ToDouble;
      var v := decoder.ReadSplitVarint64();
      if v.None? { return None; }
      JoinInt64Value(v.value.0, v.value.1);
      r := Some(JoinInt64(v.value.0, v.value.1));
    }

    method ReadString() returns (r: Option<seq<Utf8.unit>>)
      requires decoder.cursor >= 0 && nextWireType >= 0
      modifies decoder`cursor
      ensures var v := StringAt(decoder.bytes, old(decoder.cursor), decoder.end, nextWireType);
              (r.Some? <==> v.Some?) && (r.Some? ==> r.value == v.value.0 && decoder.cursor == v.value.1)
    {
      if nextWireType != DELIMITED { return None; }
      hide Unsigned32, Utf8.Decode;
      var a := decoder.ReadUnsignedVarint32();
      if a.None? { return None; }
      var s := decoder.ReadString(a.value);
      r := Some(s);
    }

    /** readMessage up to its callback: narrows the block to the message. Returns the outer end
        and the message's. */
    method OpenMessage() returns (r: Option<(int, int)>)
      requires decoder.cursor >= 0
      modifies decoder`cursor, decoder`end
      ensures var l := LengthAt(decoder.bytes, old(decoder.cursor), old(decoder.end));
              && (r.Some? <==> nextWireType == DELIMITED && l.Some?)
              && (r.Some? ==>
                    && r.value == (old(decoder.end), l.value.1 + l.value.0)
                    && decoder.cursor == l.value.1 && decoder.end == l.value.1 + l.value.0)
    {
      if nextWireType != DELIMITED { return None; }
      hide Unsigned32;
      var c := decoder.end;
      var d := decoder.ReadUnsignedVarint32();
      if d.None? { return None; }
      decoder.end := decoder.cursor + d.value;
      r := Some((c, decoder.end));
    }

    /** readMessage after its callback. */
    method CloseMessage(outer: (int, int))
      modifies decoder`cursor, decoder`end
      ensures decoder.cursor == outer.1 && decoder.end == outer.0
    {
      decoder.cursor := outer.1;
      decoder.end := outer.0;
    }
  }

  lemma HeaderParts(a: int)
    ensures Shr(a, 3) == ToUint32(a) / 8 && BitAnd(a, 7) == a % 8
  {
    hide BitAnd;
    Masks(a);
    SmallPowers();
  }
}
