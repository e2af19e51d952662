/** The protobuf wire format (Protocol Buffers encoding guide, section "Message Structure"). */
module WireFormat {
  import opened Js
  import opened Varints

  const VARINT := 0
  const FIXED64 := 1
  const DELIMITED := 2
  const START_GROUP := 3
  const END_GROUP := 4
  const FIXED32 := 5

  function Header(field: nat, wire: nat): (s: seq<byte>)
    ensures |s| >= 1
  {
    Varint(8 * field + wire)
  }

  /** A length-prefixed field. */
  function Delimited(field: nat, body: seq<byte>): seq<byte> {
    Header(field, DELIMITED) + Varint(|body|) + body
  }

  /** A varint field: the 64-bit two's complement of the number. */
  function VarintField(field: nat, value: int): seq<byte> {
    Header(field, VARINT) + Varint(value % 0x1_0000_0000_0000_0000)
  }
}
