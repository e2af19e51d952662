/** The messages of packet_pb.js: what their deserializers do with any input, and what follows
    for the bytes that their serializers write. */
module Packets {
  import opened Common
  import opened Doubles
  import opened Js
  import opened Varints
  import opened WireFormat
  import opened BinaryDecoder
  import opened BinaryReader
  import opened Records
  import Utf8

  datatype Message = Message(messageType: int, content: seq<Utf8.unit>, timestamp: int)

  datatype Event = Event(channelId: seq<Utf8.unit>, userId: seq<Utf8.unit>, eventType: int, timestamp: int)

  datatype Packet = Packet(dataType: int, timestamp: int, message: Option<Message>, event: Option<Event>)

  /** A message object of one of the three classes. */
  datatype Msg = MessageOf(message: Message) | EventOf(event: Event) | PacketOf(packet: Packet)

  datatype Kind = MessageKind | EventKind | PacketKind

  function KindOf(m: Msg): Kind {
    match m
    case MessageOf(_) => MessageKind
    case EventOf(_) => EventKind
    case PacketOf(_) => PacketKind
  }

  /** A new message object. */
  function Blank(k: Kind): (m: Msg)
    ensures KindOf(m) == k
  {
    match k
    case MessageKind => MessageOf(Message(0, [], 0))
    case EventKind => EventOf(Event([], [], 0, 0))
    case PacketKind => PacketOf(Packet(0, 0, None, None))
  }

  /** What a deserializer does at a field number: readEnum and readInt64 read the same. */
  datatype Slot = Number | Text | Nested(kind: Kind) | Unknown

  function SlotOf(k: Kind, num: nat): Slot {
    match k
    case MessageKind =>
      if num == 1 || num == 3 then Number else if num == 2 then Text else Unknown
    case EventKind =>
      if num == 1 || num == 2 then Text else if num == 3 || num == 4 then Number else Unknown
    case PacketKind =>
      if num == 1 || num == 2 then Number
      else if num == 3 then Nested(MessageKind)
      else if num == 4 then Nested(EventKind)
      else Unknown
  }

  function PutNumber(m: Msg, num: nat, v: int): (r: Msg)
    ensures KindOf(r) == KindOf(m)
  {
    match m
    case MessageOf(x) =>
      if num == 1 then MessageOf(x.(messageType := v)) else if num == 3 then MessageOf(x.(timestamp := v)) else m
    case EventOf(x) =>
      if num == 3 then EventOf(x.(eventType := v)) else if num == 4 then EventOf(x.(timestamp := v)) else m
    case PacketOf(x) =>
      if num == 1 then PacketOf(x.(dataType := v)) else if num == 2 then PacketOf(x.(timestamp := v)) else m
  }

  function PutText(m: Msg, num: nat, s: seq<Utf8.unit>): (r: Msg)
    ensures KindOf(r) == KindOf(m)
  {
    match m
    case MessageOf(x) => if num == 2 then MessageOf(x.(content := s)) else m
    case EventOf(x) =>
      if num == 1 then EventOf(x.(channelId := s)) else if num == 2 then EventOf(x.(userId := s)) else m
    case PacketOf(_) => m
  }

  function PutNested(m: Msg, v: Msg): (r: Msg)
    ensures KindOf(r) == KindOf(m)
  {
    match m
    case PacketOf(x) =>
      (match v
       case MessageOf(y) => PacketOf(x.(message := Some(y)))
       case EventOf(y) => PacketOf(x.(event := Some(y)))
       case PacketOf(_) => m)
    case _ => m
  }

  // ------------------------------------------------------------ deserializers

  /** deserializeBinaryFromReader: the message and the cursor when the loop ends, at the end of
      the block or after an end-group tag. */
  function Parse(bytes: seq<byte>, c: int, end: int, m: Msg, fuel: nat): Outcome<(Msg, int)>
    decreases fuel, 0
  {
    if fuel == 0 then Unfinished
    else match FieldAt(bytes, c, end)
      case AtEnd => Done((m, c))
      case Broken => Threw
      case Field(num, wire, c1) =>
        if wire == END_GROUP then Done((m, c1))
        else match ParseField(bytes, c1, end, m, num, wire, fuel - 1)
          case Done((m2, c2)) => Parse(bytes, c2, end, m2, fuel - 1)
          case Threw => Threw
          case Unfinished => Unfinished
  }

  /** The switch on the field number. A nested message is parsed in its own block, after which
      the cursor is put at the end of that block wherever its parser stopped. */
  function ParseField(bytes: seq<byte>, c: nat, end: int, m: Msg, num: nat, wire: nat, fuel: nat): Outcome<(Msg, int)>
    decreases fuel, 1
  {
    match SlotOf(KindOf(m), num)
    case Number =>
      (match Int64At(bytes, c, wire)
       case None => Threw
       case Some((v, d)) => Done((PutNumber(m, num, v), d)))
    case Text =>
      (match StringAt(bytes, c, end, wire)
       case None => Threw
       case Some((s, d)) => Done((PutText(m, num, s), d)))
    case Nested(k) =>
      if wire != DELIMITED then Threw
      else (match LengthAt(bytes, c, end)
        case None => Threw
        case Some((a, d)) =>
          match Parse(bytes, d, d + a, Blank(k), fuel)
          case Done((v, _)) => Done((PutNested(m, v), d + a))
          case Threw => Threw
          case Unfinished => Unfinished)
    case Unknown =>
      match FieldEnd(bytes, c, end, num, wire, fuel)
      case Done(d) => Done((m, d))
      case Threw => Threw
      case Unfinished => Unfinished
  }

  // ------------------------------------------------------------ the meaning of records

  /** r has the type that messages of kind k expect of its number; unknown numbers may have
      any. A string must not break off inside a character. */
  predicate Typed(k: Kind, r: Record)
    decreases r
  {
    match SlotOf(k, r.num)
    case Number => r.VarintRecord? && |r.raw| <= 10
    case Text => r.BytesRecord? && Utf8.Decode(r.raw, 0, |r.raw|).1 == |r.raw|
    case Nested(k2) => r.MessageRecord? && AllTyped(k2, r.fields)
    case Unknown => true
  }

  predicate AllTyped(k: Kind, rs: seq<Record>)
    decreases rs
  {
    rs == [] || (Typed(k, rs[0]) && AllTyped(k, rs[1..]))
  }

  /** The number that a varint stands for. */
  function NumberOf(raw: seq<byte>): int {
    ToDouble(Signed64(Payload(raw, 0, |raw|) % 0x1_0000_0000_0000_0000))
  }

  /** m after one record: the field is set, whatever it was, and a nested message starts blank. */
  function Apply(m: Msg, r: Record): (a: Msg)
    requires Typed(KindOf(m), r)
    ensures KindOf(a) == KindOf(m)
    decreases r
  {
    match SlotOf(KindOf(m), r.num)
    case Number => PutNumber(m, r.num, NumberOf(r.raw))
    case Text => PutText(m, r.num, Utf8.Decode(r.raw, 0, |r.raw|).0)
    case Nested(k) => PutNested(m, ApplyAll(Blank(k), r.fields))
    case Unknown => m
  }

  function ApplyAll(m: Msg, rs: seq<Record>): (a: Msg)
    requires AllTyped(KindOf(m), rs)
    ensures KindOf(a) == KindOf(m)
    decreases rs
  {
    if rs == [] then m else ApplyAll(Apply(m, rs[0]), rs[1..])
  }

  // ------------------------------------------------------------ parsing is applying

  /** A string in place reads as the string by itself. */
  lemma {:induction false} TextReads(bytes: seq<byte>, c: nat, raw: seq<byte>, i: nat)
    requires Occurs(bytes, c, raw) && i <= |raw| && Utf8.Decode(raw, i, |raw|).1 == |raw|
    ensures Utf8.Decode(bytes, c + i, c + |raw|) == (Utf8.Decode(raw, i, |raw|).0, c + |raw|)
    decreases |raw| - i
  {
    if i < |raw| {
      UnitInPlace(bytes, c, raw, i);
      hide Utf8.Unit;
      var n := Utf8.Unit(raw, i).1;
      TextReads(bytes, c, raw, i + n);
      assert c + i + n == c + (i + n);
    }
  }

  lemma UnitInPlace(bytes: seq<byte>, c: nat, raw: seq<byte>, i: nat)
    requires Occurs(bytes, c, raw) && i + Utf8.Unit(raw, i).1 <= |raw|
    ensures Utf8.Unit(bytes, c + i) == Utf8.Unit(raw, i)
  {
    var n := Utf8.Unit(raw, i).1;
    AtInPlace(bytes, c, raw, i, 0);
    if n > 1 { AtInPlace(bytes, c, raw, i, 1); }
    if n > 2 { AtInPlace(bytes, c, raw, i, 2); }
    if n > 3 { AtInPlace(bytes, c, raw, i, 3); }
    hide Utf8.At, Utf8.Bits8;
  }

  lemma AtInPlace(bytes: seq<byte>, c: nat, raw: seq<byte>, i: nat, k: nat)
    requires Occurs(bytes, c, raw) && i + k < |raw|
    ensures Utf8.At(bytes, c + i + k) == Utf8.At(raw, i + k)
  {
    assert bytes[c + (i + k)] == raw[i + k];
  }

  lemma NumberReads(bytes: seq<byte>, c: nat, raw: seq<byte>)
    requires IsVarint(raw) && |raw| <= 10 && Occurs(bytes, c, raw)
    ensures Int64At(bytes, c, VARINT) == Some((NumberOf(raw), c + |raw|))
  {
    hide VarintLen, Payload, ToDouble, Signed64, Occurs;
    MoreRoom(raw, 0, |raw|, 10);
    RawReads(bytes, c, raw, 0, 10);
  }

  /** One record of the right type is read as its meaning. */
  lemma {:induction false} ReadsRecord(bytes: seq<byte>, c: nat, end: int, m: Msg, r: Record, fuel: nat)
    requires WellFormed(r) && Typed(KindOf(m), r)
    requires Occurs(bytes, c, Body(r)) && c + |Body(r)| <= end && fuel > |Body(r)|
    ensures ParseField(bytes, c, end, m, r.num, Wire(r), fuel) == Done((Apply(m, r), c + |Body(r)|))
    decreases r, 1
  {
    hide LengthAt, FieldEnd, Int64At, NumberOf, Utf8.Decode, PutNumber, PutText, PutNested, EncodeAll, Parse, ApplyAll;
    hide IsVarint, IsTag, IsLength;
    match SlotOf(KindOf(m), r.num)
    case Number => NumberReads(bytes, c, r.raw);
    case Text =>
      LengthReads(bytes, c, end, r.length, r.raw);
      TextReads(bytes, c + |r.length|, r.raw, 0);
    case Nested(k) => NestedReads(bytes, c, end, m, r, k, fuel);
    case Unknown => SkipsRecord(bytes, c, end, r, fuel);
  }

  lemma {:induction false} NestedReads(bytes: seq<byte>, c: nat, end: int, m: Msg, r: Record, k: Kind, fuel: nat)
    requires WellFormed(r) && Typed(KindOf(m), r) && SlotOf(KindOf(m), r.num) == Nested(k)
    requires Occurs(bytes, c, Body(r)) && c + |Body(r)| <= end && fuel > |Body(r)|
    ensures ParseField(bytes, c, end, m, r.num, Wire(r), fuel) == Done((Apply(m, r), c + |Body(r)|))
    decreases r, 0
  {
    hide LengthAt, PutNested, EncodeAll, Parse, ApplyAll, AllTyped, AllWellFormed, IsVarint, IsTag, IsLength;
    var body := EncodeAll(r.fields);
    LengthReads(bytes, c, end, r.length, body);
    var d := c + |r.length|;
    ParsesRecords(bytes, d, d + |body|, Blank(k), r.fields, fuel);
    EnoughFuel(r.fields);
    ParseEnds(bytes, d + |body|, ApplyAll(Blank(k), r.fields), fuel - |r.fields|);
  }

  lemma ParseEnds(bytes: seq<byte>, c: int, m: Msg, fuel: nat)
    requires fuel > 0
    ensures Parse(bytes, c, c, m, fuel) == Done((m, c))
  {
  }

  /** Parsing a list of records comes to their meaning, with the cursor behind the last. */
  lemma {:induction false} ParsesRecords(bytes: seq<byte>, c: nat, end: int, m: Msg, rs: seq<Record>, fuel: nat)
    requires AllWellFormed(rs) && AllTyped(KindOf(m), rs) && fuel > |EncodeAll(rs)|
    requires Occurs(bytes, c, EncodeAll(rs)) && c + |EncodeAll(rs)| <= end
    ensures Parse(bytes, c, end, m, fuel)
         == Parse(bytes, c + |EncodeAll(rs)|, end, ApplyAll(m, rs), fuel - |rs|)
    decreases rs
  {
    hide FieldAt, ParseField, Body, WellFormed, Apply, Typed, IsTag;
    if rs != [] {
      var r, rest := rs[0], EncodeAll(rs[1..]);
      var h, b := r.tag, Body(r);
      WellFormedTag(r);
      SeqAssoc(h, b, rest);
      OccursSplit(bytes, c, h, b + rest);
      OccursSplit(bytes, c + |h|, b, rest);
      HeaderReads(bytes, c, end, h, r.num, Wire(r));
      ReadsRecord(bytes, c + |h|, end, m, r, fuel - 1);
      ParsesRecords(bytes, c + |h| + |b|, end, Apply(m, r), rs[1..], fuel - 1);
    }
  }

  /** Deserializing any list of well-formed, well-typed records applies them in order and stops
      exactly at the end. */
  lemma ParsesAll(m: Msg, rs: seq<Record>, fuel: nat)
    requires AllWellFormed(rs) && AllTyped(KindOf(m), rs) && fuel > |EncodeAll(rs)|
    ensures var bytes := EncodeAll(rs); Parse(bytes, 0, |bytes|, m, fuel) == Done((ApplyAll(m, rs), |bytes|))
  {
    hide EncodeAll, ApplyAll, AllWellFormed, AllTyped, Parse;
    var bytes := EncodeAll(rs);
    ParsesRecords(bytes, 0, |bytes|, m, rs, fuel);
    EnoughFuel(rs);
    ParseEnds(bytes, |bytes|, ApplyAll(m, rs), fuel - |rs|);
  }

  lemma EnoughFuel(rs: seq<Record>)
    ensures |EncodeAll(rs)| >= |rs|
  {
  }

  // ------------------------------------------------------------ where parsing throws or stops

  /** The deserializers by number: which fields are numbers (wire type 0), texts and messages (wire
      type 2). Any other wire type throws there. */
  lemma WrongTypeThrows(bytes: seq<byte>, c: nat, end: int, m: Msg, num: nat, wire: nat, fuel: nat)
    requires match m
             case MessageOf(_) => (num == 1 && wire != 0) || (num == 2 && wire != 2) || (num == 3 && wire != 0)
             case EventOf(_) =>
               (num == 1 && wire != 2) || (num == 2 && wire != 2) || (num == 3 && wire != 0) || (num == 4 && wire != 0)
             case PacketOf(_) =>
               (num == 1 && wire != 0) || (num == 2 && wire != 0) || (num == 3 && wire != 2) || (num == 4 && wire != 2)
    ensures ParseField(bytes, c, end, m, num, wire, fuel) == Threw
  {
    hide FieldEnd, LengthAt, Parse, PutNumber, PutText, PutNested;
  }

  /** On any bytes, a number field sets the property to the 64-bit varint there as a double. */
  lemma NumberFieldIs(bytes: seq<byte>, c: nat, end: int, m: Msg, num: nat, fuel: nat)
    requires if m.EventOf? then num == 3 || num == 4 else if m.PacketOf? then num == 1 || num == 2 else num == 1 || num == 3
    ensures var o, r := Split64(bytes, c), ParseField(bytes, c, end, m, num, 0, fuel);
            && (o.None? ==> r == Threw)
            && (o.Some? ==> r == Done((PutNumber(m, num, ToDouble(Signed64(o.value.0))), c + o.value.1)))
  {
    hide Split64, PutNumber, ToDouble;
  }

  /** A text field reads as many bytes as its length announces, past the end of the block if need
      be. */
  lemma TextFieldIs(bytes: seq<byte>, c: nat, end: int, m: Msg, num: nat, fuel: nat)
    requires if m.EventOf? then num == 1 || num == 2 else m.MessageOf? && num == 2
    ensures var o, r := Unsigned32(bytes, c), ParseField(bytes, c, end, m, num, 2, fuel);
            && (o.None? || c + o.value.1 > end ==> r == Threw)
            && (o.Some? && c + o.value.1 <= end ==>
                  var d := c + o.value.1;
                  var text := Utf8.Decode(bytes, d, d + o.value.0);
                  r == Done((PutText(m, num, text.0), text.1)))
  {
    hide Unsigned32, PutText, Utf8.Decode;
  }

  /** A nested message is parsed from blank in the block its length announces, which may pass the
      end of the outer one; the cursor is then put at the end of that block. */
  lemma NestedFieldIs(bytes: seq<byte>, c: nat, end: int, m: Msg, num: nat, fuel: nat)
    requires m.PacketOf? && (num == 3 || num == 4)
    ensures var o, r := Unsigned32(bytes, c), ParseField(bytes, c, end, m, num, 2, fuel);
            && (o.None? || c + o.value.1 > end ==> r == Threw)
            && (o.Some? && c + o.value.1 <= end ==>
                  var d := c + o.value.1;
                  var inner := Parse(bytes, d, d + o.value.0, Blank(if num == 3 then MessageKind else EventKind), fuel);
                  && (inner.Done? ==> r == Done((PutNested(m, inner.value.0), d + o.value.0)))
                  && (inner.Threw? ==> r == Threw) && (inner.Unfinished? ==> r == Unfinished))
  {
    hide Unsigned32, PutNested, Parse, Blank;
  }

  /** Every other field is skipped. */
  lemma OtherFieldIs(bytes: seq<byte>, c: nat, end: int, m: Msg, num: nat, wire: nat, fuel: nat)
    requires num == 0 || num > 4 || (m.MessageOf? && num > 3)
    ensures var o, r := FieldEnd(bytes, c, end, num, wire, fuel), ParseField(bytes, c, end, m, num, wire, fuel);
            && (o.Done? ==> r == Done((m, o.value))) && (o.Threw? ==> r == Threw) && (o.Unfinished? ==> r == Unfinished)
  {
    hide FieldEnd;
  }

  /** The setters by number. */
  lemma PutIs(x: Message, e: Event, p: Packet, v: int, s: seq<Utf8.unit>)
    ensures PutNumber(MessageOf(x), 1, v) == MessageOf(Message(v, x.content, x.timestamp))
    ensures PutText(MessageOf(x), 2, s) == MessageOf(Message(x.messageType, s, x.timestamp))
    ensures PutNumber(MessageOf(x), 3, v) == MessageOf(Message(x.messageType, x.content, v))
    ensures PutText(EventOf(e), 1, s) == EventOf(Event(s, e.userId, e.eventType, e.timestamp))
    ensures PutText(EventOf(e), 2, s) == EventOf(Event(e.channelId, s, e.eventType, e.timestamp))
    ensures PutNumber(EventOf(e), 3, v) == EventOf(Event(e.channelId, e.userId, v, e.timestamp))
    ensures PutNumber(EventOf(e), 4, v) == EventOf(Event(e.channelId, e.userId, e.eventType, v))
    ensures PutNumber(PacketOf(p), 1, v) == PacketOf(Packet(v, p.timestamp, p.message, p.event))
    ensures PutNumber(PacketOf(p), 2, v) == PacketOf(Packet(p.dataType, v, p.message, p.event))
    ensures PutNested(PacketOf(p), MessageOf(x)) == PacketOf(Packet(p.dataType, p.timestamp, Some(x), p.event))
    ensures PutNested(PacketOf(p), EventOf(e)) == PacketOf(Packet(p.dataType, p.timestamp, p.message, Some(e)))
  {
  }

  /** After any well-typed records parsing ends at the end of the block or behind an end tag, and
      throws at a tag that cannot be read and at a field with the wrong type. */
  lemma ParseOutcomes(bytes: seq<byte>, c: nat, end: int, m: Msg, rs: seq<Record>, fuel: nat)
    requires AllWellFormed(rs) && AllTyped(KindOf(m), rs) && fuel > |EncodeAll(rs)|
    requires Occurs(bytes, c, EncodeAll(rs)) && c + |EncodeAll(rs)| <= end
    ensures match FieldAt(bytes, c + |EncodeAll(rs)|, end)
            case AtEnd => Parse(bytes, c, end, m, fuel) == Done((ApplyAll(m, rs), c + |EncodeAll(rs)|))
            case Broken => Parse(bytes, c, end, m, fuel) == Threw
            case Field(num, wire, d) =>
              && (wire == 4 ==> Parse(bytes, c, end, m, fuel) == Done((ApplyAll(m, rs), d)))
              && (wire != 4 && ParseField(bytes, d, end, ApplyAll(m, rs), num, wire, fuel - |rs| - 1) == Threw
                  ==> Parse(bytes, c, end, m, fuel) == Threw)
  {
    hide FieldAt, ParseField, EncodeAll, ApplyAll, AllWellFormed, AllTyped;
    ParsesRecords(bytes, c, end, m, rs, fuel);
    EnoughFuel(rs);
  }
}
