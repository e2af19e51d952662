/** The UTF-8 writer and reader of strings held as UTF-16 code units (section 3 of RFC 3629,
    section 2 of RFC 2781), as byte sequences. The methods are in BinaryEncoder and
    BinaryDecoder. */
module Utf8 {
  import opened Bits
  import opened Common
  import opened Js

  type unit = x: nat | x < 0x1_0000

  predicate High(u: unit) { 0xD800 <= u <= 0xDBFF }

  predicate Low(u: unit) { 0xDC00 <= u <= 0xDFFF }

  /** The code point of a surrogate pair. */
  function Combine(h: unit, l: unit): (d: nat)
    requires High(h) && Low(l)
    ensures 0x1_0000 <= d < 0x11_0000
  {
    1024 * (h - 0xD800) + l - 0xDC00 + 0x1_0000
  }

  function Two(d: nat): seq<byte>
    requires d < 0x800
  {
    [d / 64 + 192, d % 64 + 128]
  }

  function Three(d: nat): seq<byte>
    requires d < 0x1_0000
  {
    [d / 0x1000 + 224, d / 64 % 64 + 128, d % 64 + 128]
  }

  function Four(d: nat): seq<byte>
    requires d < 0x20_0000
  {
    [d / 0x4_0000 + 240, d / 0x1000 % 64 + 128, d / 64 % 64 + 128, d % 64 + 128]
  }

  /** What is written at a code unit: the bytes, the units they stand for, the units consumed. */
  datatype Piece = Piece(bytes: seq<byte>, units: seq<unit>, n: nat)

  /** A high surrogate that is followed by a unit other than a low surrogate is written as
      nothing. */
  function Char(s: seq<unit>, c: nat): (r: Piece)
    requires c < |s|
    ensures 1 <= r.n && c + r.n <= |s|
  {
    var d := s[c];
    if d < 128 then Piece([d], [d], 1)
    else if d < 2048 then Piece(Two(d), [d], 1)
    else if High(d) && c + 1 < |s| then
      if Low(s[c + 1]) then Piece(Four(Combine(d, s[c + 1])), [d, s[c + 1]], 2) else Piece([], [], 1)
    else Piece(Three(d), [d], 1)
  }

  function Encode(s: seq<unit>, c: nat): seq<byte>
    requires c <= |s|
    decreases |s| - c
  {
    if c == |s| then [] else Char(s, c).bytes + Encode(s, c + Char(s, c).n)
  }

  /** The units that survive the writer. */
  function Kept(s: seq<unit>, c: nat): seq<unit>
    requires c <= |s|
    decreases |s| - c
  {
    if c == |s| then [] else Char(s, c).units + Kept(s, c + Char(s, c).n)
  }

  // ------------------------------------------------------------ what is written

  /** The form of a code point by section 3 of RFC 3629 (surrogates, which that section excludes,
      take the form of their range): shortest length, lead byte, continuation bytes. */
  predicate IsForm(b: seq<byte>, d: nat) {
    if d < 0x80 then b == [d]
    else if d < 0x800 then
      |b| == 2 && Continuations(b) && 0xC2 <= b[0] <= 0xDF && d == 64 * (b[0] as int - 0xC0) + Six(b, 1)
    else if d < 0x1_0000 then
      && |b| == 3 && Continuations(b) && 0xE0 <= b[0] <= 0xEF
      && d == 4096 * (b[0] as int - 0xE0) + 64 * Six(b, 1) + Six(b, 2)
    else
      && |b| == 4 && Continuations(b) && 0xF0 <= b[0] <= 0xF4
      && d == 0x4_0000 * (b[0] as int - 0xF0) + 4096 * Six(b, 1) + 64 * Six(b, 2) + Six(b, 3)
  }

  /** All bytes but the first are continuation bytes, which carry six bits each. */
  predicate Continuations(b: seq<byte>) {
    forall i :: 1 <= i < |b| ==> 0x80 <= b[i] <= 0xBF
  }

  function Six(b: seq<byte>, i: nat): int
    requires i < |b|
  {
    b[i] as int - 0x80
  }

  /** A code point has one form. */
  lemma FormUnique(a: seq<byte>, b: seq<byte>, d: nat)
    requires IsForm(a, d) && IsForm(b, d)
    ensures a == b
  {
  }

  /** The code points that are written, from c on: a pair of surrogates is one, a high surrogate
      before any other unit is none, every other unit stands for itself. */
  function CodePoints(s: seq<unit>, c: nat): seq<nat>
    requires c <= |s|
    decreases |s| - c
  {
    if c == |s| then []
    else if 0xD800 <= s[c] <= 0xDBFF && c + 1 < |s| then
      if 0xDC00 <= s[c + 1] <= 0xDFFF then
        [0x1_0000 + 0x400 * (s[c] as int - 0xD800) + (s[c + 1] as int - 0xDC00)] + CodePoints(s, c + 2)
      else CodePoints(s, c + 1)
    else [s[c] as nat] + CodePoints(s, c + 1)
  }

  function Joined(forms: seq<seq<byte>>): seq<byte> {
    if forms == [] then [] else forms[0] + Joined(forms[1..])
  }

  /** What is written is the forms of these code points, one after another. */
  lemma {:induction false} EncodeIs(s: seq<unit>, c: nat) returns (forms: seq<seq<byte>>)
    requires c <= |s|
    ensures |forms| == |CodePoints(s, c)| && Encode(s, c) == Joined(forms)
    ensures forall i :: 0 <= i < |forms| ==> IsForm(forms[i], CodePoints(s, c)[i])
    decreases |s| - c
  {
    hide *;
    if c == |s| {
      forms := [];
      NothingToWrite(s);
    } else {
      var p, d := NextPoint(s, c);
      var rest := EncodeIs(s, c + p.n);
      if p.bytes == [] {
        forms := rest;
      } else {
        forms := [p.bytes] + rest;
        JoinedCons(p.bytes, rest);
        FormsCons(p.bytes, d, rest, CodePoints(s, c + p.n));
      }
    }
  }

  lemma NothingToWrite(s: seq<unit>)
    ensures CodePoints(s, |s|) == [] && Encode(s, |s|) == [] == Joined([])
  {
  }

  lemma JoinedCons(b: seq<byte>, rest: seq<seq<byte>>)
    ensures Joined([b] + rest) == b + Joined(rest)
  {
    assert ([b] + rest)[1..] == rest;
  }

  lemma FormsCons(b: seq<byte>, d: nat, forms: seq<seq<byte>>, points: seq<nat>)
    requires IsForm(b, d) && |forms| == |points| && forall i :: 0 <= i < |forms| ==> IsForm(forms[i], points[i])
    ensures var all, ds := [b] + forms, [d] + points;
            |all| == |ds| && forall i :: 0 <= i < |all| ==> IsForm(all[i], ds[i])
  {
    hide IsForm;
  }

  /** One turn of the writer, as code points. */
  lemma NextPoint(s: seq<unit>, c: nat) returns (p: Piece, d: nat)
    requires c < |s|
    ensures p == Char(s, c) && 1 <= p.n && c + p.n <= |s| && Encode(s, c) == p.bytes + Encode(s, c + p.n)
    ensures p.bytes == [] ==> CodePoints(s, c) == CodePoints(s, c + p.n) && Encode(s, c) == Encode(s, c + p.n)
    ensures p.bytes != [] ==> IsForm(p.bytes, d) && CodePoints(s, c) == [d] + CodePoints(s, c + p.n)
  {
    hide IsForm, Char;
    p := Char(s, c);
    CharForm(s, c);
    d := if 0xD800 <= s[c] <= 0xDBFF && c + 1 < |s| && 0xDC00 <= s[c + 1] <= 0xDFFF then
           0x1_0000 + 0x400 * (s[c] as int - 0xD800) + (s[c + 1] as int - 0xDC00)
         else s[c];
    if p.bytes == [] { assert [] + Encode(s, c + p.n) == Encode(s, c + p.n); }
  }

  /** The piece written at a unit is the form of the code point there. */
  lemma CharForm(s: seq<unit>, c: nat)
    requires c < |s|
    ensures var p := Char(s, c);
            if 0xD800 <= s[c] <= 0xDBFF && c + 1 < |s| then
              if 0xDC00 <= s[c + 1] <= 0xDFFF then
                && p.n == 2 && p.bytes != []
                && IsForm(p.bytes, 0x1_0000 + 0x400 * (s[c] as int - 0xD800) + (s[c + 1] as int - 0xDC00))
              else p.n == 1 && p.bytes == []
            else p.n == 1 && p.bytes != [] && IsForm(p.bytes, s[c])
  {
    hide IsForm;
    var d := s[c];
    if 0xD800 <= d <= 0xDBFF && c + 1 < |s| {
      if Low(s[c + 1]) { FourForm(Combine(d, s[c + 1])); }
    } else if d < 0x80 {
      OneForm(d);
    } else if d < 0x800 {
      TwoForm(d);
    } else {
      ThreeForm(d);
    }
  }

  lemma OneForm(d: nat)
    requires d < 0x80
    ensures IsForm([d], d)
  {
  }

  lemma TwoForm(d: nat)
    requires 0x80 <= d < 0x800
    ensures IsForm(Two(d), d)
  {
  }

  lemma ThreeForm(d: nat)
    requires 0x800 <= d < 0x1_0000
    ensures IsForm(Three(d), d)
  {
    Groups(d);
    assert d / 0x1000 < 16 && d / 0x4_0000 == 0;
  }

  lemma FourForm(d: nat)
    requires 0x1_0000 <= d < 0x11_0000
    ensures IsForm(Four(d), d)
  {
    Groups(d);
  }

  /** One character of each length: A, U+0430, the euro sign, U+1F600. */
  lemma FormExamples()
    ensures Encode([0x41], 0) == [0x41] && Encode([0x0430], 0) == [0xD0, 0xB0]
    ensures Encode([0x20AC], 0) == [0xE2, 0x82, 0xAC] && Encode([0xD83D, 0xDE00], 0) == [0xF0, 0x9F, 0x98, 0x80]
  {
    assert Encode([0x41], 1) == [] && Encode([0x0430], 1) == [] && Encode([0x20AC], 1) == [];
    assert Encode([0xD83D, 0xDE00], 2) == [];
  }

  // ------------------------------------------------------------ reading

  /** Reading past the end of a typed array gives undefined. */
  function At(bytes: seq<byte>, i: int): Option<byte> {
    if 0 <= i < |bytes| then Some(bytes[i]) else None
  }

  /** undefined in a bitwise expression is 0. */
  function Bits8(b: Option<byte>): (v: nat)
    ensures v < 256
  {
    if b.Some? then b.value else 0
  }

  /** What is read at c, and how many bytes that consumes: nothing for a stray continuation
      byte, a lead byte from 248 on, or a position past the array. */
  function Unit(bytes: seq<byte>, c: int): (r: (seq<unit>, nat))
    ensures r.1 >= 1
  {
    match At(bytes, c)
    case None => ([], 1)
    case Some(f) =>
      if f < 128 then ([f], 1)
      else if f < 192 then ([], 1)
      else if f < 224 then ([f % 32 * 64 + Bits8(At(bytes, c + 1)) % 64], 2)
      else if f < 240 then
        ([f % 16 * 0x1000 + Bits8(At(bytes, c + 1)) % 64 * 64 + Bits8(At(bytes, c + 2)) % 64], 3)
      else if f < 248 then
        var d := f % 8 * 0x4_0000 + Bits8(At(bytes, c + 1)) % 64 * 0x1000
                 + Bits8(At(bytes, c + 2)) % 64 * 64 + Bits8(At(bytes, c + 3)) % 64 - 0x1_0000;
        ([d / 1024 % 1024 + 0xD800, d % 1024 + 0xDC00], 4)
      else ([], 1)
  }

  /** The units read from c up to (at least) position a, and where reading stops. */
  function Decode(bytes: seq<byte>, c: int, a: int): (r: (seq<unit>, int))
    ensures r.1 >= c
    decreases a - c
  {
    if c >= a then ([], c)
    else
      var (u, n) := Unit(bytes, c);
      var rest := Decode(bytes, c + n, a);
      (u + rest.0, rest.1)
  }

  // ------------------------------------------------------------ round trip

  /** A written character reads back as its own code units, consuming exactly its bytes. */
  lemma CharReads(bytes: seq<byte>, i: nat, s: seq<unit>, c: nat)
    requires c < |s| && Char(s, c).bytes != [] && Occurs(bytes, i, Char(s, c).bytes)
    ensures Unit(bytes, i) == (Char(s, c).units, |Char(s, c).bytes|)
  {
    var d := s[c];
    if d < 128 {
      assert bytes[i] == [d][0];
    } else if d < 2048 {
      TwoReads(bytes, i, d);
    } else if High(d) && c + 1 < |s| {
      FourReads(bytes, i, Combine(d, s[c + 1]));
      CombineSplits(d, s[c + 1]);
    } else {
      ThreeReads(bytes, i, d);
    }
  }

  lemma TwoReads(bytes: seq<byte>, i: nat, d: unit)
    requires 128 <= d < 2048 && Occurs(bytes, i, Two(d))
    ensures Unit(bytes, i) == ([d], 2)
  {
    assert bytes[i + 0] == Two(d)[0] && bytes[i + 1] == Two(d)[1];
  }

  lemma ThreeReads(bytes: seq<byte>, i: nat, d: unit)
    requires 2048 <= d && Occurs(bytes, i, Three(d))
    ensures Unit(bytes, i) == ([d], 3)
  {
    hide Unit;
    var x, y, z := d / 0x1000, d / 64 % 64, d % 64;
    assert bytes[i + 0] == Three(d)[0] && bytes[i + 1] == Three(d)[1] && bytes[i + 2] == Three(d)[2];
    ReadThree(bytes, i, x, y, z);
    Groups(d);
    assert d / 0x1000 % 64 == x && d / 0x4_0000 == 0;
  }

  lemma ReadThree(bytes: seq<byte>, i: nat, x: nat, y: nat, z: nat)
    requires x < 16 && y < 64 && z < 64 && x * 0x1000 + y * 64 + z < 0x1_0000
    requires i + 3 <= |bytes| && bytes[i] == x + 224 && bytes[i + 1] == y + 128 && bytes[i + 2] == z + 128
    ensures Unit(bytes, i) == ([x * 0x1000 + y * 64 + z], 3)
  {
    LowBits(x, 14, 16);
    LowBits(y, 2, 64);
    LowBits(z, 2, 64);
  }

  lemma FourReads(bytes: seq<byte>, i: nat, d: nat)
    requires 0x1_0000 <= d < 0x11_0000 && Occurs(bytes, i, Four(d))
    ensures Unit(bytes, i) == ([(d - 0x1_0000) / 1024 % 1024 + 0xD800, (d - 0x1_0000) % 1024 + 0xDC00], 4)
  {
    hide Unit;
    assert bytes[i + 0] == Four(d)[0] && bytes[i + 1] == Four(d)[1];
    assert bytes[i + 2] == Four(d)[2] && bytes[i + 3] == Four(d)[3];
    ReadFour(bytes, i, d / 0x4_0000, d / 0x1000 % 64, d / 64 % 64, d % 64);
    Groups(d);
  }

  lemma ReadFour(bytes: seq<byte>, i: nat, w: nat, x: nat, y: nat, z: nat)
    requires w < 8 && x < 64 && y < 64 && z < 64 && i + 4 <= |bytes|
    requires bytes[i] == w + 240 && bytes[i + 1] == x + 128 && bytes[i + 2] == y + 128 && bytes[i + 3] == z + 128
    ensures var d := w * 0x4_0000 + x * 0x1000 + y * 64 + z - 0x1_0000;
            Unit(bytes, i) == ([d / 1024 % 1024 + 0xD800, d % 1024 + 0xDC00], 4)
  {
    LowBits(w, 30, 8);
    LowBits(x, 2, 64);
    LowBits(y, 2, 64);
    LowBits(z, 2, 64);
  }

  /** A lead or continuation byte carries the bits below its mark. */
  lemma LowBits(x: nat, q: nat, m: nat)
    requires x < m
    ensures (x + q * m) % m == x
  {
    DivModUnique(x + q * m, m, q, x);
  }

  lemma Groups(d: nat)
    ensures d / 0x4_0000 * 0x4_0000 + d / 0x1000 % 64 * 0x1000 + d / 64 % 64 * 64 + d % 64 == d
  {
    var a := d / 64;
    var b := a / 64;
    assert d == 64 * a + d % 64;
    assert a == 64 * b + a % 64;
    assert b == 64 * (b / 64) + b % 64;
    DivModUnique(d, 0x1000, b, a % 64 * 64 + d % 64);
    DivModUnique(d, 0x4_0000, b / 64, b % 64 * 0x1000 + a % 64 * 64 + d % 64);
  }

  lemma CombineSplits(h: unit, l: unit)
    requires High(h) && Low(l)
    ensures (Combine(h, l) - 0x1_0000) / 1024 % 1024 + 0xD800 == h
    ensures (Combine(h, l) - 0x1_0000) % 1024 + 0xDC00 == l
  {
    var x, y := h - 0xD800, l - 0xDC00;
    assert Combine(h, l) - 0x1_0000 == 1024 * x + y;
    DivModUnique(1024 * x + y, 1024, x, y);
  }

  /** Reading what was written gives the kept units and stops exactly at the end. */
  lemma {:induction false} DecodeEncode(bytes: seq<byte>, i: nat, s: seq<unit>, c: nat)
    requires c <= |s| && Occurs(bytes, i, Encode(s, c))
    ensures Decode(bytes, i, i + |Encode(s, c)|) == (Kept(s, c), i + |Encode(s, c)|)
    decreases |s| - c
  {
    hide Unit, Char;
    if c < |s| {
      var p := Char(s, c);
      if p.bytes == [] {
        DroppedPiece(s, c);
        DecodeEncode(bytes, i, s, c + p.n);
      } else {
        var rest := Encode(s, c + p.n);
        OccursSplit(bytes, i, p.bytes, rest);
        DecodeEncode(bytes, i + |p.bytes|, s, c + p.n);
        CharReads(bytes, i, s, c);
        assert |Encode(s, c)| == |p.bytes| + |rest|;
      }
    }
  }

  lemma DroppedPiece(s: seq<unit>, c: nat)
    requires c < |s| && Char(s, c).bytes == []
    ensures Encode(s, c) == Encode(s, c + Char(s, c).n) && Kept(s, c) == Kept(s, c + Char(s, c).n)
  {
    PieceUnits(s, c);
    hide Char;
    var p := Char(s, c);
    assert [] + Encode(s, c + p.n) == Encode(s, c + p.n);
    var kept := Kept(s, c + p.n);
    assert [] + kept == kept;
  }

  /** A piece is either written and stands for the units it consumes, or it is a high surrogate
      written as nothing. */
  lemma PieceUnits(s: seq<unit>, c: nat)
    requires c < |s|
    ensures var p := Char(s, c);
            && (p.bytes == [] <==> p.units == [])
            && (if p.units == [] then p.n == 1 && High(s[c]) && c + 1 < |s| && !Low(s[c + 1])
                else |p.units| == p.n && (forall k :: 0 <= k < p.n ==> p.units[k] == s[c + k])
                     && (if p.n == 1 then High(s[c]) ==> c + 1 == |s| else p.n == 2 && High(s[c]) && Low(s[c + 1])))
  {
  }

  /** From c on, every high surrogate that is not the last unit is followed by a low one. */
  ghost predicate PairedFrom(s: seq<unit>, c: nat) {
    forall i :: c <= i < |s| - 1 && High(s[i]) ==> Low(s[i + 1])
  }

  ghost predicate Paired(s: seq<unit>) { PairedFrom(s, 0) }

  lemma PairedStep(s: seq<unit>, c: nat)
    requires c < |s|
    ensures PairedFrom(s, c) <==> Char(s, c).units != [] && PairedFrom(s, c + Char(s, c).n)
  {
    PieceUnits(s, c);
    hide Char;
    var p := Char(s, c);
    if p.units != [] && PairedFrom(s, c + p.n) {
      forall i | c <= i < |s| - 1 && High(s[i]) ensures Low(s[i + 1]) {
        if i == c + 1 { assert p.n == 1; }
      }
    }
  }

  lemma SuffixStep(s: seq<unit>, c: nat)
    requires c < |s| && Char(s, c).units != []
    ensures Suffix(s, c) == Char(s, c).units + Suffix(s, c + Char(s, c).n)
  {
    PieceUnits(s, c);
    hide Char;
  }

  lemma {:induction false} KeptLength(s: seq<unit>, c: nat)
    requires c <= |s|
    ensures |Kept(s, c)| <= |s| - c
    ensures if PairedFrom(s, c) then Kept(s, c) == Suffix(s, c) else |Kept(s, c)| < |s| - c
    decreases |s| - c
  {
    hide Char, Suffix;
    if c < |s| {
      PairedStep(s, c);
      PieceUnits(s, c);
      hide PairedFrom;
      KeptLength(s, c + Char(s, c).n);
      if Char(s, c).units != [] { SuffixStep(s, c); }
    }
  }

  /** The round trip is exact if and only if the string is paired in this sense (a lone high
      surrogate at the very end, and lone low surrogates anywhere, survive). */
  lemma RoundTripIff(s: seq<unit>)
    ensures Decode(Encode(s, 0), 0, |Encode(s, 0)|) == (Kept(s, 0), |Encode(s, 0)|)
    ensures Kept(s, 0) == s <==> Paired(s)
  {
    DecodeEncode(Encode(s, 0), 0, s, 0);
    KeptLength(s, 0);
    SuffixAll(s);
  }

  /** A non-empty string is never written as nothing. */
  lemma {:induction false} EncodeNonEmpty(s: seq<unit>, c: nat)
    requires c < |s|
    ensures Encode(s, c) != [] && Kept(s, c) != []
    decreases |s| - c
  {
    PieceUnits(s, c);
    hide Char;
    if Char(s, c).bytes == [] { EncodeNonEmpty(s, c + 1); }
  }
}
