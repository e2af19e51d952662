/** The serializers and deserializers of packet_pb.js. */
module PacketCodec {
  import opened Common
  import opened Js
  import opened Varints
  import opened WireFormat
  import opened BinaryWriter
  import opened BinaryReader
  import opened Records
  import opened Packets
  import opened PacketRoundTrip
  import opened PacketBytes
  import Utf8

  // ------------------------------------------------------------ serializing

  /** One more optional field has been written after the records `done`. */
  lemma FieldWritten(start: seq<seq<byte>>, before: seq<seq<byte>>, now: seq<seq<byte>>, done: seq<Record>, more: seq<Record>)
    requires |start| > 0 && before == Append(start, EncodeAll(done)) && |before| > 0
    requires now == if more == [] then before else Append(before, EncodeAll(more))
    ensures now == Append(start, EncodeAll(done + more))
  {
    hide EncodeAll, Append;
    EncodeAppend(done, more);
    AppendTwice(start, EncodeAll(done), EncodeAll(more));
    assert done + [] == done;
  }

  lemma NothingWritten(levels: seq<seq<byte>>)
    requires |levels| > 0
    ensures Append(levels, EncodeAll([])) == levels
  {
    assert Last(levels) + [] == Last(levels);
  }

  method SerializeMessage(message: Message, writer: BinaryWriter)
    requires writer.Valid() && WritableMessage(message)
    modifies writer, writer.encoder
    ensures writer.Valid() && writer.marks == old(writer.marks)
    ensures writer.levels == Append(old(writer.levels), EncodeAll(MessageRecords(message)))
  {
    hide Spells, Sum, Append, EncodeAll, NumberRecords, TextRecords, VarintField, Delimited, Utf8.Encode;
    ghost var start := writer.levels;
    NothingWritten(start);
    ghost var a, b, c :=
      NumberRecords(1, message.messageType), TextRecords(2, message.content), NumberRecords(3, message.timestamp);
    NumberBytes(1, message.messageType);
    TextBytes(2, message.content);
    NumberBytes(3, message.timestamp);
    Emptiness(1, message.messageType);
    EmptyText(2, message.content);
    Emptiness(3, message.timestamp);

    ghost var before := writer.levels;
    if message.messageType != 0 { writer.WriteEnum(1, message.messageType); }
    FieldWritten(start, before, writer.levels, [], a);
    before := writer.levels;
    if |message.content| > 0 { writer.WriteString(2, message.content); }
    FieldWritten(start, before, writer.levels, [] + a, b);
    before := writer.levels;
    if message.timestamp != 0 { writer.WriteInt64(3, message.timestamp); }
    FieldWritten(start, before, writer.levels, [] + a + b, c);
    assert [] + a == a;
  }

  lemma Emptiness(num: nat, v: int)
    ensures NumberRecords(num, v) == [] <==> v == 0
  {
  }

  lemma EmptyText(num: nat, s: seq<Utf8.unit>)
    ensures TextRecords(num, s) == [] <==> s == []
  {
  }

  method SerializeEvent(event: Event, writer: BinaryWriter)
    requires writer.Valid() && WritableEvent(event)
    modifies writer, writer.encoder
    ensures writer.Valid() && writer.marks == old(writer.marks)
    ensures writer.levels == Append(old(writer.levels), EncodeAll(EventRecords(event)))
  {
    hide Spells, Sum, Append, EncodeAll, NumberRecords, TextRecords, VarintField, Delimited, Utf8.Encode;
    ghost var start := writer.levels;
    NothingWritten(start);
    ghost var a, b, c, d := TextRecords(1, event.channelId), TextRecords(2, event.userId),
                            NumberRecords(3, event.eventType), NumberRecords(4, event.timestamp);
    TextBytes(1, event.channelId);
    TextBytes(2, event.userId);
    NumberBytes(3, event.eventType);
    NumberBytes(4, event.timestamp);
    EmptyText(1, event.channelId);
    EmptyText(2, event.userId);
    Emptiness(3, event.eventType);
    Emptiness(4, event.timestamp);

    ghost var before := writer.levels;
    if |event.channelId| > 0 { writer.WriteString(1, event.channelId); }
    FieldWritten(start, before, writer.levels, [], a);
    before := writer.levels;
    if |event.userId| > 0 { writer.WriteString(2, event.userId); }
    FieldWritten(start, before, writer.levels, [] + a, b);
    before := writer.levels;
    if event.eventType != 0 { writer.WriteEnum(3, event.eventType); }
    FieldWritten(start, before, writer.levels, [] + a + b, c);
    before := writer.levels;
    if event.timestamp != 0 { writer.WriteInt64(4, event.timestamp); }
    FieldWritten(start, before, writer.levels, [] + a + b + c, d);
    assert [] + a == a;
  }

  /** writeMessage(3, message, Message.serializeBinaryToWriter) */
  method WriteMessage(message: Message, writer: BinaryWriter)
    requires writer.Valid() && WritableMessage(message) && |EncodeAll(MessageRecords(message))| < 0x1_0000_0000
    modifies writer, writer.encoder
    ensures writer.Valid() && writer.marks == old(writer.marks)
    ensures writer.levels == Append(old(writer.levels), EncodeAll([CanonicalMessage(3, MessageRecords(message))]))
  {
    hide Spells, Sum, Append, Close, EncodeAll, MessageRecords, Delimited, Header;
    NestedBytes(3, MessageRecords(message));
    DelimitedLevels(writer.levels, 3, EncodeAll(MessageRecords(message)));
    var handle := writer.BeginDelimited(3);
    SerializeMessage(message, writer);
    writer.EndDelimited(handle);
  }

  /** writeMessage(4, event, Event.serializeBinaryToWriter) */
  method WriteEvent(event: Event, writer: BinaryWriter)
    requires writer.Valid() && WritableEvent(event) && |EncodeAll(EventRecords(event))| < 0x1_0000_0000
    modifies writer, writer.encoder
    ensures writer.Valid() && writer.marks == old(writer.marks)
    ensures writer.levels == Append(old(writer.levels), EncodeAll([CanonicalMessage(4, EventRecords(event))]))
  {
    hide Spells, Sum, Append, Close, EncodeAll, EventRecords, Delimited, Header;
    NestedBytes(4, EventRecords(event));
    DelimitedLevels(writer.levels, 4, EncodeAll(EventRecords(event)));
    var handle := writer.BeginDelimited(4);
    SerializeEvent(event, writer);
    writer.EndDelimited(handle);
  }

  method SerializePacket(packet: Packet, writer: BinaryWriter)
    requires writer.Valid() && Writable(PacketOf(packet))
    modifies writer, writer.encoder
    ensures writer.Valid() && writer.marks == old(writer.marks)
    ensures writer.levels == Append(old(writer.levels), EncodeAll(PacketRecords(packet)))
  {
    hide Spells, Sum, Append, Close, EncodeAll, NumberRecords, MessageRecords, EventRecords, VarintField, Delimited, Header;
    ghost var start := writer.levels;
    NothingWritten(start);
    ghost var a, b := NumberRecords(1, packet.dataType), NumberRecords(2, packet.timestamp);
    ghost var c := if packet.message.Some? then [CanonicalMessage(3, MessageRecords(packet.message.value))] else [];
    ghost var d := if packet.event.Some? then [CanonicalMessage(4, EventRecords(packet.event.value))] else [];
    NumberBytes(1, packet.dataType);
    NumberBytes(2, packet.timestamp);
    Emptiness(1, packet.dataType);
    Emptiness(2, packet.timestamp);

    ghost var before := writer.levels;
    if packet.dataType != 0 { writer.WriteEnum(1, packet.dataType); }
    FieldWritten(start, before, writer.levels, [], a);
    before := writer.levels;
    if packet.timestamp != 0 { writer.WriteInt64(2, packet.timestamp); }
    FieldWritten(start, before, writer.levels, [] + a, b);
    before := writer.levels;
    if packet.message.Some? { WriteMessage(packet.message.value, writer); }
    FieldWritten(start, before, writer.levels, [] + a + b, c);
    before := writer.levels;
    if packet.event.Some? { WriteEvent(packet.event.value, writer); }
    FieldWritten(start, before, writer.levels, [] + a + b + c, d);
    assert [] + a == a;
  }

  /** Packet.prototype.serializeBinary */
  method SerializeBinary(packet: Packet) returns (bytes: seq<byte>)
    requires Writable(PacketOf(packet))
    ensures bytes == Serialized(PacketOf(packet))
    ensures bytes == OfPacket(packet)
  {
    PacketBytesAre(packet);
    hide OfPacket, PacketRecords, EncodeAll, Spells, Sum, Writable;
    var writer := new BinaryWriter();
    SerializePacket(packet, writer);
    var r := writer.GetResultBuffer();
    bytes := r.value;
    assert [] + bytes == bytes;
  }

  // ------------------------------------------------------------ deserializing

  /** One turn of the deserializer's loop. */
  lemma ParseStep(bytes: seq<byte>, c: int, end: int, m: Msg, fuel: nat)
    requires fuel > 0
    ensures var f := FieldAt(bytes, c, end);
            if f.AtEnd? then Parse(bytes, c, end, m, fuel) == Done((m, c))
            else if f.Broken? then Parse(bytes, c, end, m, fuel) == Threw
            else if f.wire == END_GROUP then Parse(bytes, c, end, m, fuel) == Done((m, f.cursor))
            else
              var o := ParseField(bytes, f.cursor, end, m, f.num, f.wire, fuel - 1);
              Parse(bytes, c, end, m, fuel) == if o.Done? then Parse(bytes, o.value.1, end, o.value.0, fuel - 1) else o
  {
    hide FieldAt, ParseField;
  }

  lemma ParseStart(bytes: seq<byte>, c: int, end: int, m: Msg)
    ensures Parse(bytes, c, end, m, 0) == Unfinished
  {
  }

  lemma FieldCursor(bytes: seq<byte>, c: int, end: int)
    ensures var f := FieldAt(bytes, c, end); f.Field? ==> 0 <= f.cursor
  {
  }

  method DeserializeMessage(reader: BinaryReader, blank: Message, limit: nat) returns (r: Outcome<Message>)
    modifies reader, reader.decoder`cursor
    ensures var o := Parse(reader.decoder.bytes, old(reader.decoder.cursor), reader.decoder.end, MessageOf(blank), limit);
            && (r.Done? <==> o.Done?) && (r.Threw? <==> o.Threw?)
            && (r.Done? ==> o.value == (MessageOf(r.value), reader.decoder.cursor))
  {
    hide Parse, FieldAt, Int64At, StringAt, FieldEnd, LengthAt;
    var msg := blank;
    var f := limit;
    while f > 0
      invariant 0 <= f
      invariant Parse(reader.decoder.bytes, reader.decoder.cursor, reader.decoder.end, MessageOf(msg), f)
             == Parse(reader.decoder.bytes, old(reader.decoder.cursor), reader.decoder.end, MessageOf(blank), limit)
      decreases f
    {
      ParseStep(reader.decoder.bytes, reader.decoder.cursor, reader.decoder.end, MessageOf(msg), f);
      FieldCursor(reader.decoder.bytes, reader.decoder.cursor, reader.decoder.end);
      var next := reader.NextField();
      if next == None { return Threw; }
      if next == Some(false) { return Done(msg); }
      if reader.nextWireType == END_GROUP { return Done(msg); }
      f := f - 1;
      var field := reader.nextField;
      if field == 1 {
        var value := reader.ReadInt64();
        if value.None? { return Threw; }
        msg := msg.(messageType := value.value);
      } else if field == 2 {
        var value := reader.ReadString();
        if value.None? { return Threw; }
        msg := msg.(content := value.value);
      } else if field == 3 {
        var value := reader.ReadInt64();
        if value.None? { return Threw; }
        msg := msg.(timestamp := value.value);
      } else {
        var skipped := reader.SkipField(f);
        if !skipped.Done? { return if skipped.Threw? then Threw else Unfinished; }
      }
    }
    ParseStart(reader.decoder.bytes, reader.decoder.cursor, reader.decoder.end, MessageOf(msg));
    r := Unfinished;
  }

  method DeserializeEvent(reader: BinaryReader, blank: Event, limit: nat) returns (r: Outcome<Event>)
    modifies reader, reader.decoder`cursor
    ensures var o := Parse(reader.decoder.bytes, old(reader.decoder.cursor), reader.decoder.end, EventOf(blank), limit);
            && (r.Done? <==> o.Done?) && (r.Threw? <==> o.Threw?)
            && (r.Done? ==> o.value == (EventOf(r.value), reader.decoder.cursor))
  {
    hide Parse, FieldAt, Int64At, StringAt, FieldEnd, LengthAt;
    var msg := blank;
    var f := limit;
    while f > 0
      invariant 0 <= f
      invariant Parse(reader.decoder.bytes, reader.decoder.cursor, reader.decoder.end, EventOf(msg), f)
             == Parse(reader.decoder.bytes, old(reader.decoder.cursor), reader.decoder.end, EventOf(blank), limit)
      decreases f
    {
      ParseStep(reader.decoder.bytes, reader.decoder.cursor, reader.decoder.end, EventOf(msg), f);
      FieldCursor(reader.decoder.bytes, reader.decoder.cursor, reader.decoder.end);
      var next := reader.NextField();
      if next == None { return Threw; }
      if next == Some(false) { return Done(msg); }
      if reader.nextWireType == END_GROUP { return Done(msg); }
      f := f - 1;
      var field := reader.nextField;
      if field == 1 {
        var value := reader.ReadString();
        if value.None? { return Threw; }
        msg := msg.(channelId := value.value);
      } else if field == 2 {
        var value := reader.ReadString();
        if value.None? { return Threw; }
        msg := msg.(userId := value.value);
      } else if field == 3 {
        var value := reader.ReadInt64();
        if value.None? { return Threw; }
        msg := msg.(eventType := value.value);
      } else if field == 4 {
        var value := reader.ReadInt64();
        if value.None? { return Threw; }
        msg := msg.(timestamp := value.value);
      } else {
        var skipped := reader.SkipField(f);
        if !skipped.Done? { return if skipped.Threw? then Threw else Unfinished; }
      }
    }
    ParseStart(reader.decoder.bytes, reader.decoder.cursor, reader.decoder.end, EventOf(msg));
    r := Unfinished;
  }

  method DeserializePacket(reader: BinaryReader, blank: Packet, limit: nat) returns (r: Outcome<Packet>)
    modifies reader, reader.decoder`cursor, reader.decoder`end
    ensures var o := Parse(reader.decoder.bytes, old(reader.decoder.cursor), old(reader.decoder.end), PacketOf(blank), limit);
            && (r.Done? <==> o.Done?) && (r.Threw? <==> o.Threw?)
            && (r.Done? ==> o.value == (PacketOf(r.value), reader.decoder.cursor)
                            && reader.decoder.end == old(reader.decoder.end))
  {
    hide Parse, FieldAt, Int64At, StringAt, FieldEnd, LengthAt;
    var msg := blank;
    var f := limit;
    while f > 0
      invariant 0 <= f
      invariant reader.decoder.end == old(reader.decoder.end)
      invariant Parse(reader.decoder.bytes, reader.decoder.cursor, reader.decoder.end, PacketOf(msg), f)
             == Parse(reader.decoder.bytes, old(reader.decoder.cursor), reader.decoder.end, PacketOf(blank), limit)
      decreases f
    {
      ParseStep(reader.decoder.bytes, reader.decoder.cursor, reader.decoder.end, PacketOf(msg), f);
      FieldCursor(reader.decoder.bytes, reader.decoder.cursor, reader.decoder.end);
      var next := reader.NextField();
      if next == None { return Threw; }
      if next == Some(false) { return Done(msg); }
      if reader.nextWireType == END_GROUP { return Done(msg); }
      f := f - 1;
      var field := reader.nextField;
      if field == 1 {
        var value := reader.ReadInt64();
        if value.None? { return Threw; }
        msg := msg.(dataType := value.value);
      } else if field == 2 {
        var value := reader.ReadInt64();
        if value.None? { return Threw; }
        msg := msg.(timestamp := value.value);
      } else if field == 3 {
        var outer := reader.OpenMessage();
        if outer.None? { return Threw; }
        var value := DeserializeMessage(reader, Message(0, [], 0), f);
        if !value.Done? { return if value.Threw? then Threw else Unfinished; }
        reader.CloseMessage(outer.value);
        msg := msg.(message := Some(value.value));
      } else if field == 4 {
        var outer := reader.OpenMessage();
        if outer.None? { return Threw; }
        var value := DeserializeEvent(reader, Event([], [], 0, 0), f);
        if !value.Done? { return if value.Threw? then Threw else Unfinished; }
        reader.CloseMessage(outer.value);
        msg := msg.(event := Some(value.value));
      } else {
        var skipped := reader.SkipField(f);
        if !skipped.Done? { return if skipped.Threw? then Threw else Unfinished; }
      }
    }
    ParseStart(reader.decoder.bytes, reader.decoder.cursor, reader.decoder.end, PacketOf(msg));
    r := Unfinished;
  }

  /** Packet.deserializeBinary, on any input. */
  method DeserializeBinary(bytes: seq<byte>, limit: nat) returns (r: Outcome<Packet>)
    ensures var o := Parse(bytes, 0, |bytes|, Blank(PacketKind), limit);
            && (r.Done? <==> o.Done?) && (r.Threw? <==> o.Threw?)
            && (r.Done? ==> o.value.0 == PacketOf(r.value))
  {
    hide Parse;
    var reader := new BinaryReader(bytes);
    r := DeserializePacket(reader, Packet(0, 0, None, None), limit);
  }

  /** The two methods one after the other. */
  method SendAndReceive(packet: Packet) returns (bytes: seq<byte>, received: Outcome<Packet>)
    requires Writable(PacketOf(packet))
    ensures received.Done? && PacketOf(received.value) == Kept(PacketOf(packet))
    ensures received == Done(packet) <==> PairedStrings(PacketOf(packet))
  {
    hide Parse, Serialized, Kept, PairedStrings, Writable;
    bytes := SerializeBinary(packet);
    RoundTrip(PacketOf(packet), |bytes| + 1);
    received := DeserializeBinary(bytes, |bytes| + 1);
  }
}
