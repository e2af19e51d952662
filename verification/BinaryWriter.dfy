/** jspb.BinaryWriter: a list of byte blocks in which the length of a delimited field is filled
    in after its body. The block that awaits its length ends with a bookmark: the total length
    when the body began. A JavaScript reference to that block is its index here. */
module BinaryWriter {
  import opened Common
  import opened Js
  import opened Varints
  import opened WireFormat
  import opened BinaryEncoder
  import Utf8

  /** Blocks i to m joined. */
  ghost function Concat(blocks: seq<seq<nat>>, i: nat, m: nat): seq<nat>
    requires i <= m <= |blocks|
    decreases m - i
  {
    if i == m then [] else blocks[i] + Concat(blocks, i + 1, m)
  }

  ghost function Sum(levels: seq<seq<byte>>): nat {
    if |levels| == 0 then 0 else Sum(levels[..|levels| - 1]) + |levels[|levels| - 1]|
  }

  ghost function Front<T>(s: seq<T>): seq<T>
    requires |s| > 0
  {
    s[..|s| - 1]
  }

  ghost function Last<T>(s: seq<T>): T
    requires |s| > 0
  {
    s[|s| - 1]
  }

  /** The first m blocks followed by `tail` spell out the nested levels. Level 0 is the text of
      the outermost message so far; each open field adds a level, its body so far, and its
      block carries a bookmark equal to the length of all outer levels. */
  ghost predicate Spells(blocks: seq<seq<nat>>, m: nat, marks: seq<nat>, levels: seq<seq<byte>>, tail: seq<nat>)
    requires m <= |blocks|
    decreases |marks|
  {
    && |levels| == |marks| + 1
    && if |marks| == 0 then levels[0] == Concat(blocks, 0, m) + tail
       else
         var h := Last(marks);
         && h < m && blocks[h] != [] && Last(blocks[h]) == Sum(Front(levels))
         && Last(levels) == Concat(blocks, h + 1, m) + tail
         && Spells(blocks, h, Front(marks), Front(levels), Front(blocks[h]))
  }

  /** Only the tail of the innermost level changes. */
  lemma SpellsTail(blocks: seq<seq<nat>>, m: nat, marks: seq<nat>, levels: seq<seq<byte>>, tail: seq<nat>, more: seq<byte>)
    requires m <= |blocks| && Spells(blocks, m, marks, levels, tail)
    ensures Spells(blocks, m, marks, Front(levels) + [Last(levels) + more], tail + more)
  {
    var levels' := Front(levels) + [Last(levels) + more];
    assert Front(levels') == Front(levels) && Last(levels') == Last(levels) + more;
    if |marks| == 0 {
      SeqAssoc(Concat(blocks, 0, m), tail, more);
    } else {
      SeqAssoc(Concat(blocks, Last(marks) + 1, m), tail, more);
    }
  }

  lemma {:induction false} ConcatSame(a: seq<seq<nat>>, b: seq<seq<nat>>, i: nat, m: nat)
    requires i <= m <= |a| && m <= |b| && forall k :: i <= k < m ==> a[k] == b[k]
    ensures Concat(a, i, m) == Concat(b, i, m)
    decreases m - i
  {
    if i < m { ConcatSame(a, b, i + 1, m); }
  }

  lemma {:induction false} ConcatSplit(a: seq<seq<nat>>, i: nat, k: nat, m: nat)
    requires i <= k <= m <= |a|
    ensures Concat(a, i, m) == Concat(a, i, k) + Concat(a, k, m)
    decreases k - i
  {
    if i < k {
      ConcatSplit(a, i + 1, k, m);
      SeqAssoc(a[i], Concat(a, i + 1, k), Concat(a, k, m));
    } else {
      assert [] + Concat(a, k, m) == Concat(a, k, m);
    }
  }

  /** The first m blocks alone matter. */
  lemma {:induction false} SpellsSame(a: seq<seq<nat>>, b: seq<seq<nat>>, m: nat, marks: seq<nat>, levels: seq<seq<byte>>, tail: seq<nat>)
    requires m <= |a| && m <= |b| && forall k :: 0 <= k < m ==> a[k] == b[k]
    requires Spells(a, m, marks, levels, tail)
    ensures Spells(b, m, marks, levels, tail)
    decreases |marks|
  {
    if |marks| == 0 {
      ConcatSame(a, b, 0, m);
    } else {
      var h := Last(marks);
      ConcatSame(a, b, h + 1, m);
      SpellsSame(a, b, h, Front(marks), Front(levels), Front(a[h]));
    }
  }

  /** Opening: the tail becomes a block with a bookmark, and an empty level is added. */
  lemma SpellsOpen(blocks: seq<seq<nat>>, marks: seq<nat>, levels: seq<seq<byte>>, tail: seq<nat>)
    requires Spells(blocks, |blocks|, marks, levels, tail)
    ensures Spells(blocks + [tail + [Sum(levels)]], |blocks| + 1, marks + [|blocks|], levels + [[]], [])
  {
    var b := blocks + [tail + [Sum(levels)]];
    var h := |blocks|;
    assert Front(marks + [h]) == marks && Last(marks + [h]) == h;
    assert Front(levels + [[]]) == levels && Last(levels + [[]]) == [];
    assert b[h] == tail + [Sum(levels)] && Front(b[h]) == tail;
    assert Concat(b, h + 1, h + 1) == [];
    SpellsSame(blocks, b, h, marks, levels, tail);
  }

  /** Closing: with `length` in place of the bookmark, the two innermost levels are one. */
  lemma SpellsClose(blocks: seq<seq<nat>>, marks: seq<nat>, levels: seq<seq<byte>>, tail: seq<nat>, length: seq<byte>)
    requires Spells(blocks, |blocks|, marks, levels, tail) && |marks| > 0
    ensures var h, n := Last(marks), |levels|;
            && h < |blocks| && blocks[h] != []
            && Spells(blocks[h := Front(blocks[h]) + length], |blocks|, Front(marks),
                      levels[..n - 2] + [levels[n - 2] + length + levels[n - 1]], tail)
  {
    var h, n := Last(marks), |levels|;
    var outer := Front(levels);
    var b := blocks[h := Front(blocks[h]) + length];
    var k := if |marks| == 1 then 0 else Last(Front(marks)) + 1;
    assert outer[n - 2] == Concat(blocks, k, h) + Front(blocks[h]);
    MergedText(blocks, b, k, h, length, tail);
    var merged := levels[..n - 2] + [levels[n - 2] + length + levels[n - 1]];
    assert Last(merged) == Concat(b, k, |b|) + tail;
    if |marks| > 1 {
      var h2 := Last(Front(marks));
      assert Front(merged) == Front(outer);
      SpellsSame(blocks, b, h2, Front(Front(marks)), Front(outer), Front(blocks[h2]));
    }
  }

  /** Storing the tail as a block of its own. */
  lemma SpellsFlush(blocks: seq<seq<nat>>, marks: seq<nat>, levels: seq<seq<byte>>, tail: seq<nat>)
    requires Spells(blocks, |blocks|, marks, levels, tail)
    ensures Spells(blocks + [tail], |blocks| + 1, marks, levels, [])
  {
    var b, n := blocks + [tail], |blocks|;
    var k := if |marks| == 0 then 0 else Last(marks) + 1;
    ConcatSplit(b, k, n, n + 1);
    ConcatSame(blocks, b, k, n);
    assert Concat(b, n, n + 1) == tail + [];
    assert (Concat(blocks, k, n) + tail) + [] == Concat(blocks, k, n) + tail;
    if |marks| > 0 {
      var h := Last(marks);
      SpellsSame(blocks, b, h, Front(marks), Front(levels), Front(blocks[h]));
    }
  }

  lemma MergedText(a: seq<seq<nat>>, b: seq<seq<nat>>, k: nat, h: nat, length: seq<byte>, tail: seq<nat>)
    requires k <= h < |a| && a[h] != [] && b == a[h := Front(a[h]) + length]
    ensures Concat(b, k, |b|) + tail
         == Concat(a, k, h) + Front(a[h]) + length + (Concat(a, h + 1, |a|) + tail)
  {
    ConcatSplit(b, k, h, |b|);
    ConcatSame(a, b, k, h);
    ConcatSame(a, b, h + 1, |a|);
    var x, f, r := Concat(a, k, h), Front(a[h]), Concat(a, h + 1, |a|);
    assert Concat(b, h, |b|) == (f + length) + r;
    assert (x + ((f + length) + r)) + tail == x + f + length + (r + tail);
  }

  /** Appending to the innermost level. */
  ghost function Append(levels: seq<seq<byte>>, more: seq<byte>): seq<seq<byte>>
    requires |levels| > 0
  {
    Front(levels) + [Last(levels) + more]
  }

  /** Closing the innermost level: its length and text go to the level outside. */
  ghost function Close(levels: seq<seq<byte>>): seq<seq<byte>>
    requires |levels| >= 2
  {
    var n := |levels|;
    levels[..n - 2] + [levels[n - 2] + Varint(|levels[n - 1]|) + levels[n - 1]]
  }

  lemma SumAppend(levels: seq<seq<byte>>, more: seq<byte>)
    requires |levels| > 0
    ensures Sum(Append(levels, more)) == Sum(levels) + |more|
  {
    var a := Append(levels, more);
    assert Front(a) == Front(levels) && Last(a) == Last(levels) + more;
    SumLast(a);
    SumLast(levels);
  }

  lemma SumOpen(levels: seq<seq<byte>>)
    ensures Sum(levels + [[]]) == Sum(levels)
  {
    assert (levels + [[]])[..|levels|] == levels;
  }

  lemma SumClose(levels: seq<seq<byte>>)
    requires |levels| >= 2
    ensures Sum(Close(levels)) == Sum(levels) + |Varint(|Last(levels)|)|
  {
    var n := |levels|;
    assert Front(Close(levels)) == levels[..n - 2] == Front(Front(levels));
    assert levels[..n - 1][..n - 2] == levels[..n - 2];
  }

  lemma AppendTwice(levels: seq<seq<byte>>, a: seq<byte>, b: seq<byte>)
    requires |levels| > 0
    ensures Append(Append(levels, a), b) == Append(levels, a + b)
  {
    SeqAssoc(Last(levels), a, b);
    assert Front(Append(levels, a)) == Front(levels);
  }

  /** Header, a new level, its body, and closing make one delimited field. */
  lemma DelimitedLevels(levels: seq<seq<byte>>, field: nat, body: seq<byte>)
    requires |levels| > 0
    ensures Append(Append(levels, Header(field, DELIMITED)) + [[]], body)
         == Append(levels, Header(field, DELIMITED)) + [body]
    ensures Close(Append(levels, Header(field, DELIMITED)) + [body]) == Append(levels, Delimited(field, body))
  {
    var h, v := Header(field, DELIMITED), Varint(|body|);
    hide Header, Varint;
    assert Front(Append(levels, h) + [[]]) == Append(levels, h);
    assert [] + body == body;
    var x := Append(levels, h) + [body];
    assert x[..|x| - 2] == Front(levels) && x[|x| - 2] == Last(levels) + h;
    assert Last(levels) + h + v + body == Last(levels) + (h + v + body);
  }

  /** A bookmark makes its block one longer than its text. */
  lemma {:induction false} SpellsLength(blocks: seq<seq<nat>>, m: nat, marks: seq<nat>, levels: seq<seq<byte>>, tail: seq<nat>)
    requires m <= |blocks| && Spells(blocks, m, marks, levels, tail)
    ensures |Concat(blocks, 0, m)| + |tail| == Sum(levels) + |marks|
    decreases |marks|
  {
    if |marks| > 0 {
      var h := Last(marks);
      SpellsLength(blocks, h, Front(marks), Front(levels), Front(blocks[h]));
      ConcatSplit(blocks, 0, h, m);
    } else {
      assert levels == [levels[0]];
      assert Sum(levels[..0]) == 0;
    }
  }

  class BinaryWriter {
    const encoder: BinaryEncoder
    var blocks: seq<seq<nat>>
    var totalLength: nat

    ghost var levels: seq<seq<byte>>
    ghost var marks: seq<nat>

    ghost predicate Valid()
      reads this, encoder
    {
      && |levels| == |marks| + 1
      && Spells(blocks, |blocks|, marks, levels, encoder.buffer)
      && totalLength + |encoder.buffer| == Sum(levels)
    }

    constructor ()
      ensures Valid() && fresh(encoder) && levels == [[]] && marks == []
    {
      blocks := [];
      totalLength := 0;
      levels := [[]];
      marks := [];
      encoder := new BinaryEncoder();
      new;
      SumLast(levels);
      assert Front(levels) == [];
    }

    /** Called after the encoder has appended `more`. */
    ghost method Wrote(more: seq<byte>, before: seq<byte>)
      requires encoder.buffer == before + more
      requires |levels| == |marks| + 1 && Spells(blocks, |blocks|, marks, levels, before) && totalLength + |before| == Sum(levels)
      modifies this`levels
      ensures Valid() && levels == Append(old(levels), more)
    {
      SpellsTail(blocks, |blocks|, marks, levels, before, more);
      SumAppend(levels, more);
      levels := Append(levels, more);
    }

    method WriteFieldHeader(field: nat, wire: nat)
      requires Valid() && 1 <= field && wire < 8 && 8 * field + wire < 0x1_0000_0000
      modifies this`levels, encoder
      ensures Valid() && levels == Append(old(levels), Header(field, wire))
    {
      hide Spells, Varint, Sum;
      ghost var before := encoder.buffer;
      encoder.WriteUnsignedVarint32(8 * field + wire);
      Wrote(Varint(8 * field + wire), before);
    }

    /** Adds bytes that are already encoded, as a block of their own. */
    method AppendUint8Array(a: seq<byte>)
      requires Valid()
      modifies this, encoder
      ensures Valid() && marks == old(marks) && levels == Append(old(levels), a)
    {
      hide Spells, Sum;
      SpellsFlush(blocks, marks, levels, encoder.buffer);
      var b := encoder.End();
      blocks := blocks + [b];
      SpellsTail(blocks, |blocks|, marks, levels, [], a);
      assert [] + a == a;
      levels := Append(levels, a);
      SumAppend(old(levels), a);
      SpellsFlush(blocks, marks, levels, a);
      blocks := blocks + [a];
      totalLength := totalLength + |b| + |a|;
    }

    /** Writes the header, closes the current block with a bookmark, and returns it. */
    method BeginDelimited(field: nat) returns (handle: nat)
      requires Valid() && 1 <= field < 0x2000_0000
      modifies this, encoder
      ensures Valid() && marks == old(marks) + [handle]
      ensures levels == Append(old(levels), Header(field, DELIMITED)) + [[]]
    {
      hide Spells, Varint, Sum, Header;
      WriteFieldHeader(field, DELIMITED);
      SpellsOpen(blocks, marks, levels, encoder.buffer);
      SumOpen(levels);
      var a := encoder.End();
      handle := |blocks|;
      blocks := blocks + [a];
      totalLength := totalLength + |a|;
      blocks := blocks[..handle] + [blocks[handle] + [totalLength]];
      levels := levels + [[]];
      marks := marks + [handle];
    }

    /** Replaces the bookmark by the length of everything written since. */
    method EndDelimited(handle: nat)
      requires Valid() && |marks| > 0 && handle == Last(marks) && |Last(levels)| < 0x1_0000_0000
      modifies this
      ensures Valid() && marks == Front(old(marks)) && levels == Close(old(levels))
    {
      ghost var body := Last(levels);
      assert handle < |blocks| && blocks[handle] != [] && Last(blocks[handle]) == Sum(Front(levels));
      SumLast(levels);
      SumClose(levels);
      SpellsClose(blocks, marks, levels, encoder.buffer, Varint(|body|));
      hide Spells, Varint, Sum, BitOr, BitAnd, Shr, Concat, Close;
      var a := blocks[handle]; // the block itself, stored back below
      var b := totalLength + |encoder.buffer| - a[|a| - 1];
      var c, n := PushLength(a[..|a| - 1], b);
      totalLength := totalLength + n;
      blocks := blocks[handle := c];
      levels := Close(levels);
      marks := Front(marks);
    }

    method WriteEnum(field: nat, value: int)
      requires Valid() && 1 <= field < 0x2000_0000 && -0x8000_0000 <= value < 0x8000_0000
      modifies this`levels, encoder
      ensures Valid() && levels == Append(old(levels), VarintField(field, value))
    {
      hide Spells, Sum, Varint, Header;
      WriteFieldHeader(field, VARINT);
      ghost var before := encoder.buffer;
      encoder.WriteSignedVarint32(value);
      Wrote(Varint(value % 0x1_0000_0000_0000_0000), before);
      AppendTwice(old(levels), Header(field, VARINT), Varint(value % 0x1_0000_0000_0000_0000));
    }

    method WriteInt64(field: nat, value: int)
      requires Valid() && 1 <= field < 0x2000_0000
      requires -0x8000_0000_0000_0000 <= value < 0x8000_0000_0000_0000
      modifies this`levels, encoder
      ensures Valid() && levels == Append(old(levels), VarintField(field, value))
    {
      hide Spells, Sum, Varint, Header;
      WriteFieldHeader(field, VARINT);
      ghost var before := encoder.buffer;
      encoder.WriteSignedVarint64(value);
      Wrote(Varint(value % 0x1_0000_0000_0000_0000), before);
      AppendTwice(old(levels), Header(field, VARINT), Varint(value % 0x1_0000_0000_0000_0000));
    }

    method WriteString(field: nat, value: seq<Utf8.unit>)
      requires Valid() && 1 <= field < 0x2000_0000 && |Utf8.Encode(value, 0)| < 0x1_0000_0000
      modifies this, encoder
      ensures Valid() && marks == old(marks)
      ensures levels == Append(old(levels), Delimited(field, Utf8.Encode(value, 0)))
    {
      hide Spells, Sum, Varint, Header, Delimited, Close, Utf8.Encode;
      var handle := BeginDelimited(field);
      ghost var body, before := Utf8.Encode(value, 0), encoder.buffer;
      var n := encoder.WriteString(value);
      Wrote(body, before);
      DelimitedLevels(old(levels), field, body);
      EndDelimited(handle);
    }

    /** Joins the blocks and the encoder's bytes into one array. Open fields make the blocks too
        long for the array, which throws (None). */
    method GetResultBuffer() returns (r: Option<seq<byte>>)
      requires Valid()
      modifies this`blocks, encoder
      ensures r.Some? <==> marks == []
      ensures r.Some? ==> r.value == levels[0] && blocks == [r.value] && encoder.buffer == []
      // totalLength_ is not updated: the writer is fit for another call only if nothing was pending
      ensures r.Some? ==> (Valid() <==> old(encoder.buffer) == [])
    {
      SpellsLength(blocks, |blocks|, marks, levels, encoder.buffer);
      ghost var text := Concat(blocks, 0, |blocks|);
      assert marks == [] ==> levels[0] == text + encoder.buffer;
      ResultSpells(levels);
      hide Spells, Sum;
      var a := new nat[totalLength + |encoder.buffer|];
      var copied := CopyBlocks(a, blocks);
      if copied.None? { return None; }
      var d := copied.value;
      var b := encoder.End();
      if d + |b| > a.Length { return None; }
      Copy(a, b, d);
      d := d + |b|;
      if d != a.Length { return None; }
      ghost var out := a[..];
      assert out == text + b;
      assert marks == [];
      var bytes: seq<byte> := a[..];
      blocks := [bytes];
      r := Some(bytes);
    }
  }

  lemma ResultSpells(levels: seq<seq<byte>>)
    ensures |levels| == 1 ==> Spells([levels[0]], 1, [], levels, []) && Sum(levels) == |levels[0]|
  {
    if |levels| == 1 {
      assert Concat([levels[0]], 0, 1) == levels[0] + [];
      assert Concat([levels[0]], 0, 1) + [] == levels[0];
      assert levels[..0] == [];
      SumLast(levels);
    }
  }

  /** The loop of endDelimited_: pushes the length, counting the bytes. */
  method PushLength(block: seq<nat>, length: nat) returns (a: seq<nat>, n: nat)
    requires length < 0x1_0000_0000
    ensures a == block + Varint(length) && n == |Varint(length)|
  {
    hide Varint, BitOr, BitAnd, Shr;
    a, n := block, 0;
    var b := length;
    while 127 < b
      invariant b < 0x1_0000_0000
      invariant a + Varint(b) == block + Varint(length)
      invariant n + |Varint(b)| == |Varint(length)|
    {
      GroupByte(b);
      ShrSeven(b);
      VarintUnfoldLength(b);
      GrowBlock(a, b);
      a := a + [BitOr(BitAnd(b, 127), 128)];
      b := Shr(b, 7);
      n := n + 1;
    }
    VarintSmall(b);
    a := a + [b];
    n := n + 1;
  }

  /** Copies the blocks one behind the other; None (it throws) when they do not fit. */
  method CopyBlocks(a: array<nat>, blocks: seq<seq<nat>>) returns (r: Option<nat>)
    modifies a
    ensures r.Some? <==> |Concat(blocks, 0, |blocks|)| <= a.Length
    ensures r.Some? ==> r.value == |Concat(blocks, 0, |blocks|)| && a[..r.value] == Concat(blocks, 0, |blocks|)
  {
    var d := 0;
    for e := 0 to |blocks|
      invariant d == |Concat(blocks, 0, e)| <= a.Length
      invariant a[..d] == Concat(blocks, 0, e)
    {
      var f := blocks[e];
      ConcatSplit(blocks, 0, e, e + 1);
      assert Concat(blocks, e, e + 1) == f + [];
      ConcatSplit(blocks, 0, e + 1, |blocks|);
      if d + |f| > a.Length { return None; }
      Copy(a, f, d);
      d := d + |f|;
    }
    r := Some(d);
  }

  /** TypedArray.prototype.set */
  method Copy(a: array<nat>, f: seq<nat>, d: nat)
    requires d + |f| <= a.Length
    modifies a
    ensures a[..d + |f|] == old(a[..d]) + f
  {
    forall i | 0 <= i < |f| { a[d + i] := f[i]; }
  }

  lemma GrowBlock(a: seq<nat>, b: nat)
    requires b >= 128
    ensures (a + [b % 128 + 128]) + Varint(b / 128) == a + Varint(b)
  {
    VarintUnfold(b);
    hide Varint;
    SeqAssoc(a, [b % 128 + 128], Varint(b / 128));
  }

  lemma VarintUnfoldLength(b: nat)
    requires b >= 128
    ensures |Varint(b)| == 1 + |Varint(b / 128)|
  {
    VarintUnfold(b);
  }

  lemma ShrSeven(b: u32)
    ensures Shr(b, 7) == b / 128
  {
    SmallPowers();
  }

  lemma VarintSmall(b: nat)
    requires b < 128
    ensures Varint(b) == [b]
  {
  }

  lemma SumLast(levels: seq<seq<byte>>)
    requires |levels| > 0
    ensures Sum(levels) == Sum(Front(levels)) + |Last(levels)|
  {
  }
}
