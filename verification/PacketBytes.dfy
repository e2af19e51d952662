/** The bytes of the three messages, written out: tags as numbers, then the base-128 numbers, the
    UTF-8 text, the nested bytes. */
module PacketBytes {
  import opened Common
  import opened Js
  import opened Varints
  import opened WireFormat
  import opened Records
  import opened Packets
  import opened PacketRoundTrip
  import Utf8

  // ------------------------------------------------------------ the layout

  /** A number field: nothing for 0, else the tag and the 64-bit two's complement. */
  function NumberField(tag: byte, v: int): seq<byte> {
    if v == 0 then [] else [tag] + Varint(v % 0x1_0000_0000_0000_0000)
  }

  /** A text field: nothing for the empty string. */
  function TextField(tag: byte, s: seq<Utf8.unit>): seq<byte> {
    if s == [] then [] else Prefixed(tag, Utf8.Encode(s, 0))
  }

  function Prefixed(tag: byte, body: seq<byte>): seq<byte> { [tag] + Varint(|body|) + body }

  function OfMessage(x: Message): seq<byte> {
    NumberField(0x08, x.messageType) + TextField(0x12, x.content) + NumberField(0x18, x.timestamp)
  }

  function OfEvent(x: Event): seq<byte> {
    TextField(0x0A, x.channelId) + TextField(0x12, x.userId) + NumberField(0x18, x.eventType)
    + NumberField(0x20, x.timestamp)
  }

  function OfPacket(x: Packet): seq<byte> {
    NumberField(0x08, x.dataType) + NumberField(0x10, x.timestamp)
    + (if x.message.Some? then Prefixed(0x1A, OfMessage(x.message.value)) else [])
    + (if x.event.Some? then Prefixed(0x22, OfEvent(x.event.value)) else [])
  }

  // ------------------------------------------------------------ the records have this layout

  lemma EncodeOne(r: Record)
    ensures EncodeAll([r]) == Encode(r)
  {
    hide Encode;
    assert [r][1..] == [];
    assert EncodeAll([r][1..]) == [];
    assert Encode(r) + [] == Encode(r);
  }

  lemma NumberBytes(num: nat, v: int)
    ensures EncodeAll(NumberRecords(num, v)) == if v == 0 then [] else VarintField(num, v)
  {
    hide Varint, Header;
    if v != 0 { EncodeOne(NumberRecords(num, v)[0]); }
  }

  lemma TextBytes(num: nat, s: seq<Utf8.unit>)
    ensures EncodeAll(TextRecords(num, s)) == if s == [] then [] else Delimited(num, Utf8.Encode(s, 0))
  {
    hide Varint, Header, Utf8.Encode;
    if s != [] {
      var body := Utf8.Encode(s, 0);
      EncodeOne(TextRecords(num, s)[0]);
      SeqAssoc(Header(num, DELIMITED), Varint(|body|), body);
    }
  }

  lemma NestedBytes(num: nat, rs: seq<Record>)
    ensures EncodeAll([CanonicalMessage(num, rs)]) == Delimited(num, EncodeAll(rs))
  {
    var r := CanonicalMessage(num, rs);
    EncodeOne(r);
    hide Varint, Header, EncodeAll;
    var body := EncodeAll(rs);
    SeqAssoc(Header(num, DELIMITED), Varint(|body|), body);
  }

  /** Field numbers and wire types as one byte. */
  lemma TagByte(num: nat, wire: nat)
    requires 8 * num + wire < 128
    ensures Header(num, wire) == [8 * num + wire]
  {
  }

  lemma NumberBytesAre(num: nat, v: int)
    requires num < 16
    ensures EncodeAll(NumberRecords(num, v)) == NumberField(8 * num, v)
  {
    hide Varint, EncodeAll, NumberRecords, Header;
    NumberBytes(num, v);
    TagByte(num, 0);
  }

  lemma TextBytesAre(num: nat, s: seq<Utf8.unit>)
    requires num < 15
    ensures EncodeAll(TextRecords(num, s)) == TextField(8 * num + 2, s)
  {
    hide Varint, EncodeAll, TextRecords, Header, Utf8.Encode;
    TextBytes(num, s);
    TagByte(num, 2);
  }

  lemma NestedBytesAre(num: nat, rs: seq<Record>)
    requires num < 15
    ensures EncodeAll([CanonicalMessage(num, rs)]) == Prefixed(8 * num + 2, EncodeAll(rs))
  {
    hide Varint, EncodeAll, CanonicalMessage, Header;
    NestedBytes(num, rs);
    TagByte(num, 2);
  }

  lemma MessageBytesAre(x: Message)
    ensures EncodeAll(MessageRecords(x)) == OfMessage(x)
  {
    hide EncodeAll, NumberRecords, TextRecords, NumberField, TextField;
    var a, b, d := NumberRecords(1, x.messageType), TextRecords(2, x.content), NumberRecords(3, x.timestamp);
    EncodeAppend(a + b, d);
    EncodeAppend(a, b);
    NumberBytesAre(1, x.messageType);
    TextBytesAre(2, x.content);
    NumberBytesAre(3, x.timestamp);
  }

  lemma EventBytesAre(x: Event)
    ensures EncodeAll(EventRecords(x)) == OfEvent(x)
  {
    hide EncodeAll, NumberRecords, TextRecords, NumberField, TextField;
    var a, b := TextRecords(1, x.channelId), TextRecords(2, x.userId);
    var d, e := NumberRecords(3, x.eventType), NumberRecords(4, x.timestamp);
    EncodeAppend(a + b + d, e);
    EncodeAppend(a + b, d);
    EncodeAppend(a, b);
    TextBytesAre(1, x.channelId);
    TextBytesAre(2, x.userId);
    NumberBytesAre(3, x.eventType);
    NumberBytesAre(4, x.timestamp);
  }

  lemma PacketBytesAre(x: Packet)
    ensures Serialized(PacketOf(x)) == OfPacket(x)
  {
    hide EncodeAll, NumberRecords, NumberField, MessageRecords, EventRecords, OfMessage, OfEvent, Prefixed, CanonicalMessage;
    var a, b := NumberRecords(1, x.dataType), NumberRecords(2, x.timestamp);
    var d := if x.message.Some? then [CanonicalMessage(3, MessageRecords(x.message.value))] else [];
    var e := if x.event.Some? then [CanonicalMessage(4, EventRecords(x.event.value))] else [];
    EncodeAppend(a + b + d, e);
    EncodeAppend(a + b, d);
    EncodeAppend(a, b);
    NumberBytesAre(1, x.dataType);
    NumberBytesAre(2, x.timestamp);
    NoBytes();
    if x.message.Some? {
      MessageBytesAre(x.message.value);
      NestedBytesAre(3, MessageRecords(x.message.value));
    }
    if x.event.Some? {
      EventBytesAre(x.event.value);
      NestedBytesAre(4, EventRecords(x.event.value));
    }
  }

  lemma NoBytes()
    ensures EncodeAll([]) == []
  {
  }

  /** Every message serializes to these bytes. */
  lemma SerializedBytes(m: Msg)
    ensures Serialized(m) == match m
                             case MessageOf(x) => OfMessage(x)
                             case EventOf(x) => OfEvent(x)
                             case PacketOf(x) => OfPacket(x)
  {
    hide EncodeAll, MessageRecords, EventRecords, PacketRecords, OfMessage, OfEvent, OfPacket;
    match m
    case MessageOf(x) => MessageBytesAre(x);
    case EventOf(x) => EventBytesAre(x);
    case PacketOf(x) => PacketBytesAre(x);
  }

  /** A packet with data type 1, timestamp 300, an empty message, and an event in channel "a". */
  lemma BytesExample()
    ensures OfPacket(Packet(1, 300, Some(Message(0, [], 0)), Some(Event([0x61], [], 0, 0))))
         == [0x08, 0x01, 0x10, 0xAC, 0x02, 0x1A, 0x00, 0x22, 0x03, 0x0A, 0x01, 0x61]
  {
    hide Varint, Utf8.Encode;
    SmallVarints();
    assert OfMessage(Message(0, [], 0)) == [];
    assert OfEvent(Event([0x61], [], 0, 0)) == [0x0A, 0x01, 0x61];
  }

  lemma SmallVarints()
    ensures Varint(0) == [0] && Varint(1) == [1] && Varint(3) == [3] && Varint(300) == [0xAC, 0x02]
    ensures Utf8.Encode([0x61], 0) == [0x61]
  {
    assert Utf8.Encode([0x61], 1) == [];
  }
}
