/** What packet_pb.js promises end to end: serializing and deserializing, unknown fields, and
    messages appended to one another. */
module PacketRoundTrip {
  import opened Common
  import opened Doubles
  import opened Js
  import opened Varints
  import opened WireFormat
  import opened BinaryReader
  import opened Records
  import opened Packets
  import Utf8

  // ------------------------------------------------------------ serializers

  /** Default values are not written. */
  function NumberRecords(num: nat, v: int): (rs: seq<Record>)
    ensures |rs| <= 1
  {
    if v == 0 then [] else [CanonicalVarint(num, Varint(v % 0x1_0000_0000_0000_0000))]
  }

  function TextRecords(num: nat, s: seq<Utf8.unit>): (rs: seq<Record>)
    ensures |rs| <= 1
  {
    if s == [] then [] else [CanonicalBytes(num, Utf8.Encode(s, 0))]
  }

  function MessageRecords(x: Message): seq<Record> {
    NumberRecords(1, x.messageType) + TextRecords(2, x.content) + NumberRecords(3, x.timestamp)
  }

  function EventRecords(x: Event): seq<Record> {
    TextRecords(1, x.channelId) + TextRecords(2, x.userId) + NumberRecords(3, x.eventType)
    + NumberRecords(4, x.timestamp)
  }

  function PacketRecords(x: Packet): seq<Record> {
    NumberRecords(1, x.dataType) + NumberRecords(2, x.timestamp)
    + (if x.message.Some? then [CanonicalMessage(3, MessageRecords(x.message.value))] else [])
    + (if x.event.Some? then [CanonicalMessage(4, EventRecords(x.event.value))] else [])
  }

  /** serializeBinaryToWriter, as records. */
  function RecordsOf(m: Msg): seq<Record> {
    match m
    case MessageOf(x) => MessageRecords(x)
    case EventOf(x) => EventRecords(x)
    case PacketOf(x) => PacketRecords(x)
  }

  function Serialized(m: Msg): seq<byte> { EncodeAll(RecordsOf(m)) }

  /** A JavaScript number in the range of writeInt64. */
  predicate Int64(v: int) { -0x8000_0000_0000_0000 <= v < 0x8000_0000_0000_0000 && IsDouble(v) }

  predicate Int32(v: int) { -0x8000_0000 <= v < 0x8000_0000 }

  predicate ShortText(s: seq<Utf8.unit>) { |Utf8.Encode(s, 0)| < 0x1_0000_0000 }

  /** What the writer's assertions allow: int32 enums, numbers of 64 bits as timestamps, and
      delimited fields of less than 4 GiB. */
  predicate Writable(m: Msg) {
    match m
    case MessageOf(x) => WritableMessage(x)
    case EventOf(x) => WritableEvent(x)
    case PacketOf(x) =>
      && Int32(x.dataType) && Int64(x.timestamp)
      && (x.message.Some? ==>
            WritableMessage(x.message.value) && |EncodeAll(MessageRecords(x.message.value))| < 0x1_0000_0000)
      && (x.event.Some? ==>
            WritableEvent(x.event.value) && |EncodeAll(EventRecords(x.event.value))| < 0x1_0000_0000)
  }

  predicate WritableMessage(x: Message) {
    Int32(x.messageType) && ShortText(x.content) && Int64(x.timestamp)
  }

  predicate WritableEvent(x: Event) {
    ShortText(x.channelId) && ShortText(x.userId) && Int32(x.eventType) && Int64(x.timestamp)
  }

  // ------------------------------------------------------------ what comes back

  /** Each string loses the high surrogates that the UTF-8 writer drops. */
  function KeptMessage(x: Message): Message { x.(content := Utf8.Kept(x.content, 0)) }

  function KeptEvent(x: Event): Event {
    x.(channelId := Utf8.Kept(x.channelId, 0), userId := Utf8.Kept(x.userId, 0))
  }

  function Kept(m: Msg): (k: Msg)
    ensures KindOf(k) == KindOf(m)
  {
    match m
    case MessageOf(x) => MessageOf(KeptMessage(x))
    case EventOf(x) => EventOf(KeptEvent(x))
    case PacketOf(x) =>
      PacketOf(x.(message := if x.message.Some? then Some(KeptMessage(x.message.value)) else None,
                  event := if x.event.Some? then Some(KeptEvent(x.event.value)) else None))
  }

  ghost predicate PairedStrings(m: Msg) {
    match m
    case MessageOf(x) => Utf8.Paired(x.content)
    case EventOf(x) => Utf8.Paired(x.channelId) && Utf8.Paired(x.userId)
    case PacketOf(x) =>
      && (x.message.Some? ==> Utf8.Paired(x.message.value.content))
      && (x.event.Some? ==> Utf8.Paired(x.event.value.channelId) && Utf8.Paired(x.event.value.userId))
  }

  lemma KeptIff(m: Msg)
    ensures Kept(m) == m <==> PairedStrings(m)
  {
    hide Utf8.Kept, Utf8.Paired;
    match m
    case MessageOf(x) => Utf8.RoundTripIff(x.content);
    case EventOf(x) =>
      Utf8.RoundTripIff(x.channelId);
      Utf8.RoundTripIff(x.userId);
    case PacketOf(x) =>
      if x.message.Some? { Utf8.RoundTripIff(x.message.value.content); }
      if x.event.Some? {
        Utf8.RoundTripIff(x.event.value.channelId);
        Utf8.RoundTripIff(x.event.value.userId);
      }
  }

  /** b's values where they are not the default, else a's. Messages are replaced whole. */
  function Override(a: Msg, b: Msg): (m: Msg)
    requires KindOf(a) == KindOf(b)
    ensures KindOf(m) == KindOf(a)
  {
    match a
    case MessageOf(x) =>
      var y := b.message;
      MessageOf(Message(if y.messageType != 0 then y.messageType else x.messageType,
                        if y.content != [] then y.content else x.content,
                        if y.timestamp != 0 then y.timestamp else x.timestamp))
    case EventOf(x) =>
      var y := b.event;
      EventOf(Event(if y.channelId != [] then y.channelId else x.channelId,
                    if y.userId != [] then y.userId else x.userId,
                    if y.eventType != 0 then y.eventType else x.eventType,
                    if y.timestamp != 0 then y.timestamp else x.timestamp))
    case PacketOf(x) =>
      var y := b.packet;
      PacketOf(Packet(if y.dataType != 0 then y.dataType else x.dataType,
                      if y.timestamp != 0 then y.timestamp else x.timestamp,
                      if y.message.Some? then y.message else x.message,
                      if y.event.Some? then y.event else x.event))
  }

  // ------------------------------------------------------------ records of a message

  /** A list of records all of which are fine for messages of kind k. */
  predicate Good(k: Kind, rs: seq<Record>) { AllWellFormed(rs) && AllTyped(k, rs) }

  lemma {:induction false} GoodAppend(k: Kind, a: seq<Record>, b: seq<Record>)
    ensures Good(k, a + b) <==> Good(k, a) && Good(k, b)
    decreases a
  {
    hide WellFormed, Typed;
    if a == [] {
      assert a + b == b;
    } else {
      assert (a + b)[1..] == a[1..] + b;
      GoodAppend(k, a[1..], b);
    }
  }

  lemma {:induction false} ApplyAppend(m: Msg, a: seq<Record>, b: seq<Record>)
    requires Good(KindOf(m), a) && Good(KindOf(m), b)
    ensures Good(KindOf(m), a + b) && ApplyAll(m, a + b) == ApplyAll(ApplyAll(m, a), b)
    decreases a
  {
    hide WellFormed, Typed, Apply;
    GoodAppend(KindOf(m), a, b);
    if a == [] {
      assert a + b == b;
    } else {
      assert (a + b)[1..] == a[1..] + b;
      ApplyAppend(Apply(m, a[0]), a[1..], b);
    }
  }

  lemma ApplyOne(m: Msg, r: Record)
    requires WellFormed(r) && Typed(KindOf(m), r)
    ensures Good(KindOf(m), [r]) && ApplyAll(m, [r]) == Apply(m, r)
  {
    hide WellFormed, Typed, Apply;
    assert [r][1..] == [];
    assert AllWellFormed([r][1..]) && AllTyped(KindOf(m), [r][1..]);
    assert ApplyAll(Apply(m, r), []) == Apply(m, r);
  }

  /** A written varint means its number again. */
  lemma VarintMeans(v: int)
    requires Int64(v)
    ensures var raw := Varint(v % 0x1_0000_0000_0000_0000);
            IsVarint(raw) && |raw| <= 10 && NumberOf(raw) == v
  {
    hide Varint, VarintLen, Payload, ToDouble, IsDouble, Rounded, Ulp;
    var u := v % 0x1_0000_0000_0000_0000;
    var raw := Varint(u);
    VarintLength64(u);
    VarintReads(raw, 0, u, |raw|);
    ToDoubleIs(v);
  }

  lemma TextMeans(s: seq<Utf8.unit>)
    ensures var raw := Utf8.Encode(s, 0); Utf8.Decode(raw, 0, |raw|) == (Utf8.Kept(s, 0), |raw|)
    ensures s != [] ==> Utf8.Kept(s, 0) != []
  {
    Utf8.RoundTripIff(s);
    if s != [] { Utf8.EncodeNonEmpty(s, 0); }
  }

  lemma EnumIsNumber(v: int)
    requires Int32(v)
    ensures Int64(v)
  {
    SafeIsDouble(v);
  }

  lemma NumberApplies(m: Msg, num: nat, v: int)
    requires Int64(v) && num < 0x2000_0000 && SlotOf(KindOf(m), num) == Number
    ensures Good(KindOf(m), NumberRecords(num, v))
    ensures ApplyAll(m, NumberRecords(num, v)) == if v == 0 then m else PutNumber(m, num, v)
  {
    hide Varint, NumberOf, IsVarint, IsTag, PutNumber;
    if v != 0 {
      CanonicalTag(num, VARINT);
      VarintMeans(v);
      ApplyOne(m, NumberRecords(num, v)[0]);
    }
  }

  lemma TextApplies(m: Msg, num: nat, s: seq<Utf8.unit>)
    requires ShortText(s) && num < 0x2000_0000 && SlotOf(KindOf(m), num) == Text
    ensures Good(KindOf(m), TextRecords(num, s))
    ensures ApplyAll(m, TextRecords(num, s)) == if s == [] then m else PutText(m, num, Utf8.Kept(s, 0))
  {
    hide Utf8.Encode, Utf8.Decode, Utf8.Kept, PutText, Varint, IsTag, IsLength;
    if s != [] {
      CanonicalTag(num, DELIMITED);
      CanonicalLength(|Utf8.Encode(s, 0)|);
      TextMeans(s);
      ApplyOne(m, TextRecords(num, s)[0]);
    }
  }

  lemma MessageApplies(m: Msg, x: Message)
    requires KindOf(m) == MessageKind && Writable(MessageOf(x))
    ensures Good(MessageKind, MessageRecords(x))
    ensures ApplyAll(m, MessageRecords(x)) == Override(m, MessageOf(KeptMessage(x)))
  {
    hide AllTyped, AllWellFormed, ApplyAll, Utf8.Kept, Utf8.Encode, NumberRecords, TextRecords;
    var a, b, c := NumberRecords(1, x.messageType), TextRecords(2, x.content), NumberRecords(3, x.timestamp);
    EnumIsNumber(x.messageType);
    NumberApplies(m, 1, x.messageType);
    var m1 := ApplyAll(m, a);
    TextApplies(m1, 2, x.content);
    var m2 := ApplyAll(m1, b);
    NumberApplies(m2, 3, x.timestamp);
    ApplyAppend(m, a, b);
    ApplyAppend(m, a + b, c);
    TextMeans(x.content);
    KeptEmpty();
  }

  lemma KeptEmpty()
    ensures Utf8.Kept([], 0) == []
  {
  }

  lemma EventApplies(m: Msg, x: Event)
    requires KindOf(m) == EventKind && Writable(EventOf(x))
    ensures Good(EventKind, EventRecords(x))
    ensures ApplyAll(m, EventRecords(x)) == Override(m, EventOf(KeptEvent(x)))
  {
    hide AllTyped, AllWellFormed, ApplyAll, Utf8.Kept, Utf8.Encode, NumberRecords, TextRecords;
    var a, b := TextRecords(1, x.channelId), TextRecords(2, x.userId);
    var c, d := NumberRecords(3, x.eventType), NumberRecords(4, x.timestamp);
    EnumIsNumber(x.eventType);
    TextApplies(m, 1, x.channelId);
    var m1 := ApplyAll(m, a);
    TextApplies(m1, 2, x.userId);
    var m2 := ApplyAll(m1, b);
    NumberApplies(m2, 3, x.eventType);
    var m3 := ApplyAll(m2, c);
    NumberApplies(m3, 4, x.timestamp);
    ApplyAppend(m, a, b);
    ApplyAppend(m, a + b, c);
    ApplyAppend(m, a + b + c, d);
    TextMeans(x.channelId);
    TextMeans(x.userId);
    KeptEmpty();
  }

  /** A nested message, present even when it has no field of its own. */
  lemma NestedApplies(m: Msg, num: nat, k: Kind, rs: seq<Record>)
    requires num < 0x2000_0000 && SlotOf(KindOf(m), num) == Nested(k)
    requires Good(k, rs) && |EncodeAll(rs)| < 0x1_0000_0000
    ensures Good(KindOf(m), [CanonicalMessage(num, rs)])
    ensures ApplyAll(m, [CanonicalMessage(num, rs)]) == PutNested(m, ApplyAll(Blank(k), rs))
  {
    hide PutNested, ApplyAll, AllTyped, AllWellFormed, EncodeAll, Varint, IsTag, IsLength;
    CanonicalTag(num, DELIMITED);
    CanonicalLength(|EncodeAll(rs)|);
    ApplyOne(m, CanonicalMessage(num, rs));
  }

  lemma PacketApplies(m: Msg, x: Packet)
    requires KindOf(m) == PacketKind && Writable(PacketOf(x))
    ensures Good(PacketKind, PacketRecords(x))
    ensures ApplyAll(m, PacketRecords(x)) == Override(m, Kept(PacketOf(x)))
  {
    hide ApplyAll, AllTyped, AllWellFormed, Utf8.Kept, Utf8.Encode, NumberRecords, MessageRecords, EventRecords, EncodeAll;
    var a, b := NumberRecords(1, x.dataType), NumberRecords(2, x.timestamp);
    var c := if x.message.Some? then [CanonicalMessage(3, MessageRecords(x.message.value))] else [];
    var d := if x.event.Some? then [CanonicalMessage(4, EventRecords(x.event.value))] else [];
    EnumIsNumber(x.dataType);
    NumberApplies(m, 1, x.dataType);
    var m1 := ApplyAll(m, a);
    NumberApplies(m1, 2, x.timestamp);
    var m2 := ApplyAll(m1, b);
    NoRecords(m2);
    if x.message.Some? {
      MessageApplies(Blank(MessageKind), x.message.value);
      NestedApplies(m2, 3, MessageKind, MessageRecords(x.message.value));
      OverrideBlank(MessageOf(KeptMessage(x.message.value)));
    }
    var m3 := ApplyAll(m2, c);
    NoRecords(m3);
    if x.event.Some? {
      EventApplies(Blank(EventKind), x.event.value);
      NestedApplies(m3, 4, EventKind, EventRecords(x.event.value));
      OverrideBlank(EventOf(KeptEvent(x.event.value)));
    }
    ApplyAppend(m, a, b);
    ApplyAppend(m, a + b, c);
    ApplyAppend(m, a + b + c, d);
  }

  lemma NoRecords(m: Msg)
    ensures Good(KindOf(m), []) && ApplyAll(m, []) == m
  {
  }

  lemma OverrideBlank(m: Msg)
    ensures Override(Blank(KindOf(m)), m) == m
  {
  }

  /** Reading a serialized message into m0 overrides m0. */
  lemma OwnApplies(m0: Msg, m: Msg)
    requires Writable(m) && KindOf(m0) == KindOf(m)
    ensures Good(KindOf(m), RecordsOf(m)) && ApplyAll(m0, RecordsOf(m)) == Override(m0, Kept(m))
  {
    hide AllTyped, AllWellFormed, ApplyAll, Writable, Override, MessageRecords, EventRecords, PacketRecords;
    match m
    case MessageOf(x) => MessageApplies(m0, x);
    case EventOf(x) => EventApplies(m0, x);
    case PacketOf(x) => PacketApplies(m0, x);
  }

  // ------------------------------------------------------------ the theorems

  /** Deserializing what was serialized gives the message back, up to dropped surrogates, and
      stops exactly at the end; it is the same message if and only if its strings are paired. */
  lemma RoundTrip(m: Msg, fuel: nat)
    requires Writable(m) && fuel > |Serialized(m)|
    ensures Parse(Serialized(m), 0, |Serialized(m)|, Blank(KindOf(m)), fuel) == Done((Kept(m), |Serialized(m)|))
    ensures Kept(m) == m <==> PairedStrings(m)
  {
    hide Parse, ApplyAll, AllTyped, AllWellFormed, RecordsOf, Kept, Writable, Override, Blank, PairedStrings, EncodeAll;
    OwnApplies(Blank(KindOf(m)), m);
    KeptKind(m);
    OverrideBlank(Kept(m));
    ParsesAll(Blank(KindOf(m)), RecordsOf(m), fuel);
    KeptIff(m);
  }

  lemma KeptKind(m: Msg)
    ensures KindOf(Kept(m)) == KindOf(m)
  {
  }

  /** Any well-formed record with an unknown number, between any others, changes nothing. */
  lemma UnknownIsTransparent(m: Msg, a: seq<Record>, u: Record, b: seq<Record>, fuel: nat)
    requires Good(KindOf(m), a) && Good(KindOf(m), b) && WellFormed(u) && SlotOf(KindOf(m), u.num) == Unknown
    requires fuel > |EncodeAll(a + [u] + b)| && fuel > |EncodeAll(a + b)|
    ensures Good(KindOf(m), a + b)
    ensures var x, y := EncodeAll(a + [u] + b), EncodeAll(a + b);
            && Parse(y, 0, |y|, m, fuel) == Done((ApplyAll(m, a + b), |y|))
            && Parse(x, 0, |x|, m, fuel) == Done((ApplyAll(m, a + b), |x|))
  {
    assert Typed(KindOf(m), u) && Apply(m, u) == m;
    assert forall n: Msg :: KindOf(n) == KindOf(m) ==> Typed(KindOf(n), u) && Apply(n, u) == n;
    hide Parse, ApplyAll, AllTyped, AllWellFormed, EncodeAll, Typed, WellFormed, Apply;
    var m1 := ApplyAll(m, a);
    ApplyOne(m1, u);
    ApplyAppend(m, a, [u]);
    ApplyAppend(m, a + [u], b);
    ApplyAppend(m, a, b);
    ParsesAll(m, a + [u] + b, fuel);
    ParsesAll(m, a + b, fuel);
  }

  /** Of two serialized messages in a row, the second one's fields win. */
  lemma LastOneWins(x: Msg, y: Msg, fuel: nat)
    requires Writable(x) && Writable(y) && KindOf(x) == KindOf(y) && fuel > |Serialized(x) + Serialized(y)|
    ensures var bytes := Serialized(x) + Serialized(y);
            Parse(bytes, 0, |bytes|, Blank(KindOf(x)), fuel) == Done((Override(Kept(x), Kept(y)), |bytes|))
  {
    hide Parse, ApplyAll, AllTyped, AllWellFormed, RecordsOf, Kept, Writable, Override, Blank, EncodeAll;
    KeptKind(x);
    KeptKind(y);
    OwnApplies(Blank(KindOf(x)), x);
    OverrideBlank(Kept(x));
    OwnApplies(Kept(x), y);
    ApplyAppend(Blank(KindOf(x)), RecordsOf(x), RecordsOf(y));
    EncodeAppend(RecordsOf(x), RecordsOf(y));
    ParsesAll(Blank(KindOf(x)), RecordsOf(x) + RecordsOf(y), fuel);
  }
}
