/** Messages nested in messages, to any depth: the block list with its bookmarks spells the
    recursive encoding. */
module WriterTrees {
  import opened WireFormat
  import opened BinaryWriter
  import opened Records
  import opened PacketBytes
  import opened PacketCodec

  /** Writes each nested message the way writeMessage does (begin, callback, end), and every
      other record as bytes. */
  method WriteRecords(writer: BinaryWriter, rs: seq<Record>)
    requires writer.Valid() && AllWellFormed(rs) && AllWritten(rs)
    modifies writer, writer.encoder
    ensures writer.Valid() && writer.marks == old(writer.marks)
    ensures writer.levels == Append(old(writer.levels), EncodeAll(rs))
    decreases rs
  {
    hide Spells, Sum, Append, Close, EncodeAll, Header, Delimited;
    ghost var start := writer.levels;
    NothingWritten(start);
    for i := 0 to |rs|
      invariant writer.Valid() && writer.marks == old(writer.marks)
      invariant writer.levels == Append(start, EncodeAll(rs[..i]))
    {
      var r := rs[i];
      ghost var before := writer.levels;
      assert WellFormed(r) && Written(r) by { ElementAt(rs, i); }
      match r {
        case MessageRecord(num, _, _, fields) =>
          LengthFits(r);
          NestedBytes(num, fields);
          DelimitedLevels(before, num, EncodeAll(fields));
          var handle := writer.BeginDelimited(num);
          WriteRecords(writer, fields);
          writer.EndDelimited(handle);
        case _ =>
          EncodeOne(r);
          writer.AppendUint8Array(Encode(r));
      }
      FieldWritten(start, before, writer.levels, rs[..i], [r]);
      assert rs[..i + 1] == rs[..i] + [r];
    }
    assert rs[..|rs|] == rs;
  }

  /** writeFieldHeader_ asserts that the number is at least 1, and tags and lengths of nested
      messages are written canonically. */
  predicate Written(r: Record)
    decreases r
  {
    r.num >= 1 && (r.MessageRecord? ==> AllWritten(r.fields) && r == CanonicalMessage(r.num, r.fields))
  }

  predicate AllWritten(rs: seq<Record>)
    decreases rs
  {
    rs == [] || (Written(rs[0]) && AllWritten(rs[1..]))
  }

  lemma {:induction false} ElementAt(rs: seq<Record>, i: nat)
    requires i < |rs| && AllWellFormed(rs) && AllWritten(rs)
    ensures WellFormed(rs[i]) && Written(rs[i])
    decreases i
  {
    if i > 0 { ElementAt(rs[1..], i - 1); }
  }

  /** What BeginDelimited and EndDelimited assert. */
  lemma LengthFits(r: Record)
    requires WellFormed(r) && r.MessageRecord?
    ensures r.num < 0x2000_0000 && |EncodeAll(r.fields)| < 0x1_0000_0000
  {
    hide EncodeAll, AllWellFormed, IsVarint;
  }
}
