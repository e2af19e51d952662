/** goog.crypt.base64: the encoder for five alphabets and the one decoder for all of them
    (sections 4 and 5 of RFC 4648). */
module Base64 {
  import opened Bits
  import opened Common
  import opened Js

  datatype Alphabet = Default | NoPadding | Websafe | WebsafeDotPadding | WebsafeNoPadding

  /** byteToCharMaps_[alphabet][i], or "" where it is undefined; index 64 is the padding. */
  function CharOf(alphabet: Alphabet, i: nat): string {
    if i < 26 then ['A' + i as char]
    else if i < 52 then ['a' + (i - 26) as char]
    else if i < 62 then ['0' + (i - 52) as char]
    else if i == 62 then if alphabet.Default? || alphabet.NoPadding? then "+" else "-"
    else if i == 63 then if alphabet.Default? || alphabet.NoPadding? then "/" else "_"
    else if i == 64 then
      if alphabet.Default? || alphabet.Websafe? then "=" else if alphabet.WebsafeDotPadding? then "." else ""
    else ""
  }

  /** charToByteMap_[c] */
  function ByteOf(c: char): (r: Option<nat>)
    ensures r.Some? ==> r.value <= 64
  {
    if 'A' <= c <= 'Z' then Some(c as int - 65)
    else if 'a' <= c <= 'z' then Some(c as int - 71)
    else if '0' <= c <= '9' then Some(c as int + 4)
    else if c == '+' || c == '-' then Some(62)
    else if c == '/' || c == '_' then Some(63)
    else if c == '=' || c == '.' then Some(64)
    else None
  }

  /** goog.string.isEmptyOrWhitespace on one character. */
  predicate IsSpace(c: char) {
    var x := c as int;
    || 9 <= x <= 13 || x == 32 || x == 0xA0 || x == 0x1680 || 0x2000 <= x <= 0x200A
    || x == 0x2028 || x == 0x2029 || x == 0x202F || x == 0x205F || x == 0x3000 || x == 0xFEFF
  }

  /** Every character of every alphabet maps back to its index, and is no white space. */
  lemma MapsAgree(alphabet: Alphabet, i: nat)
    ensures var s := CharOf(alphabet, i);
            |s| <= 1 && (s != "" ==> ByteOf(s[0]) == Some(i) && !IsSpace(s[0])) && (i < 64 ==> s != "")
  {
  }

  /** The characters of the first n indices. */
  function Table(alphabet: Alphabet, n: nat): string {
    if n == 0 then "" else Table(alphabet, n - 1) + CharOf(alphabet, n - 1)
  }

  /** The five alphabets as strings, the last character being the padding where there is one. */
  lemma Tables()
    ensures Table(Default, 65) == Letters() + "0123456789" + "+/="
    ensures Table(NoPadding, 65) == Letters() + "0123456789" + "+/"
    ensures Table(Websafe, 65) == Letters() + "0123456789" + "-_="
    ensures Table(WebsafeDotPadding, 65) == Letters() + "0123456789" + "-_."
    ensures Table(WebsafeNoPadding, 65) == Letters() + "0123456789" + "-_"
  {
    hide Letters, Table, CharOf;
    Endings();
    TableIs(Default, "+/=");
    TableIs(NoPadding, "+/");
    TableIs(Websafe, "-_=");
    TableIs(WebsafeDotPadding, "-_.");
    TableIs(WebsafeNoPadding, "-_");
  }

  function Ending(alphabet: Alphabet): string {
    CharOf(alphabet, 62) + CharOf(alphabet, 63) + CharOf(alphabet, 64)
  }

  lemma Endings()
    ensures Ending(Default) == "+/=" && Ending(NoPadding) == "+/" && Ending(Websafe) == "-_="
    ensures Ending(WebsafeDotPadding) == "-_." && Ending(WebsafeNoPadding) == "-_"
  {
  }

  function Letters(): string {
    "ABCDEFGHIJKLM" + "NOPQRSTUVWXYZ" + "abcdefghijklm" + "nopqrstuvwxyz"
  }

  lemma TableIs(alphabet: Alphabet, last: string)
    requires last == Ending(alphabet)
    ensures Table(alphabet, 65) == Letters() + "0123456789" + last
  {
    hide CharOf, Table, Ending;
    FirstLetters(alphabet);
    LastLetters(alphabet);
    Digits(alphabet);
    LastThree(alphabet);
  }

  lemma FirstLetters(alphabet: Alphabet)
    ensures Table(alphabet, 26) == "ABCDEFGHIJKLM" + "NOPQRSTUVWXYZ"
  {
    hide Table;
    Extends(alphabet, 0, "ABCDEFGHIJKLM");
    Extends(alphabet, 13, "NOPQRSTUVWXYZ");
    NoChars(alphabet);
  }

  lemma LastLetters(alphabet: Alphabet)
    ensures Table(alphabet, 52) == Table(alphabet, 26) + "abcdefghijklm" + "nopqrstuvwxyz"
  {
    hide Table;
    Extends(alphabet, 26, "abcdefghijklm");
    Extends(alphabet, 39, "nopqrstuvwxyz");
  }

  lemma Digits(alphabet: Alphabet)
    ensures Table(alphabet, 62) == Table(alphabet, 52) + "0123456789"
  {
    hide Table;
    Extends(alphabet, 52, "0123456789");
  }

  lemma NoChars(alphabet: Alphabet)
    ensures Table(alphabet, 0) == "" && Table(alphabet, 0) + "ABCDEFGHIJKLM" == "ABCDEFGHIJKLM"
  {
  }

  lemma {:induction false} Extends(alphabet: Alphabet, n: nat, s: string)
    requires forall j :: 0 <= j < |s| ==> CharOf(alphabet, n + j) == [s[j]]
    ensures Table(alphabet, n + |s|) == Table(alphabet, n) + s
    decreases |s|
  {
    hide CharOf;
    if s == "" {
      assert Table(alphabet, n) + "" == Table(alphabet, n);
    } else {
      var k := |s| - 1;
      Extends(alphabet, n, s[..k]);
      assert CharOf(alphabet, n + k) == [s[k]];
      assert Table(alphabet, n) + s == (Table(alphabet, n) + s[..k]) + [s[k]];
    }
  }

  lemma LastThree(alphabet: Alphabet)
    ensures Table(alphabet, 65) == Table(alphabet, 62) + Ending(alphabet)
  {
    hide CharOf;
    hide Table;
    OneMore(alphabet, 62);
    OneMore(alphabet, 63);
    OneMore(alphabet, 64);
    SeqAssoc(Table(alphabet, 62) + CharOf(alphabet, 62), CharOf(alphabet, 63), CharOf(alphabet, 64));
  }

  lemma OneMore(alphabet: Alphabet, n: nat)
    ensures Table(alphabet, n + 1) == Table(alphabet, n) + CharOf(alphabet, n)
  {
    hide CharOf;
  }

  /** The decoder's map is the union of the alphabets. */
  lemma ByteOfIs(c: char, v: nat)
    ensures ByteOf(c) == Some(v) <==> exists alphabet :: CharOf(alphabet, v) == [c]
  {
    if ByteOf(c) == Some(v) {
      assert CharOf(Default, v) == [c] || CharOf(Websafe, v) == [c] || CharOf(WebsafeDotPadding, v) == [c];
    }
    if alphabet :| CharOf(alphabet, v) == [c] { MapsAgree(alphabet, v); }
  }

  /** White space is these 25 characters. */
  lemma SpaceIs(c: char)
    ensures IsSpace(c) <==> c as int in [9, 10, 11, 12, 13, 0x20, 0xA0, 0x1680, 0x2000, 0x2001, 0x2002, 0x2003, 0x2004,
                                         0x2005, 0x2006, 0x2007, 0x2008, 0x2009, 0x200A, 0x2028, 0x2029, 0x202F, 0x205F,
                                         0x3000, 0xFEFF]
  {
  }

  // ------------------------------------------------------------ encoding

  /** The four indices for one to three bytes from d on. */
  function Indices(a: seq<byte>, d: nat): (nat, nat, nat, nat)
    requires d < |a|
  {
    var e: nat := a[d];
    var g: nat := if d + 1 < |a| then a[d + 1] else 0;
    var k: nat := if d + 2 < |a| then a[d + 2] else 0;
    (e / 4,
     e % 4 * 16 + g / 16,
     if d + 1 < |a| then g % 16 * 4 + k / 64 else 64,
     if d + 2 < |a| then k % 64 else 64)
  }

  function Quad(alphabet: Alphabet, x: (nat, nat, nat, nat)): string {
    CharOf(alphabet, x.0) + CharOf(alphabet, x.1) + CharOf(alphabet, x.2) + CharOf(alphabet, x.3)
  }

  function Encode(alphabet: Alphabet, a: seq<byte>, d: nat): string
    decreases |a| - d
  {
    if d >= |a| then "" else Quad(alphabet, Indices(a, d)) + Encode(alphabet, a, d + 3)
  }

  method EncodeByteArray(a: seq<byte>, alphabet: Alphabet) returns (r: string)
    ensures r == Encode(alphabet, a, 0)
  {
    hide BitAnd, BitOr, Shl, Sar, CharOf, Encode;
    r := "";
    var d := 0;
    while d < |a|
      invariant d >= 0 && r + Encode(alphabet, a, d) == Encode(alphabet, a, 0)
    {
      var e: int := a[d];
      var f := d + 1 < |a|;
      var g: int := if f then a[d + 1] else 0;
      var h := d + 2 < |a|;
      var k: int := if h then a[d + 2] else 0;
      Sextets(e, g, k);
      var l := Sar(e, 2);
      e := BitOr(Shl(BitAnd(e, 3), 4), Sar(g, 4));
      g := BitOr(Shl(BitAnd(g, 15), 2), Sar(k, 6));
      k := BitAnd(k, 63);
      if !h {
        k := 64;
        if !f { g := 64; }
      }
      EncodeUnfold(r, alphabet, a, d);
      r := r + (CharOf(alphabet, l) + CharOf(alphabet, e) + CharOf(alphabet, g) + CharOf(alphabet, k));
      d := d + 3;
    }
    EncodeEnd(alphabet, a, d);
  }

  lemma EncodeUnfold(r: string, alphabet: Alphabet, a: seq<byte>, d: nat)
    requires d < |a|
    ensures r + Encode(alphabet, a, d) == (r + Quad(alphabet, Indices(a, d))) + Encode(alphabet, a, d + 3)
  {
    SeqAssoc(r, Quad(alphabet, Indices(a, d)), Encode(alphabet, a, d + 3));
  }

  lemma EncodeEnd(alphabet: Alphabet, a: seq<byte>, d: nat)
    requires d >= |a|
    ensures Encode(alphabet, a, d) == ""
  {
  }

  lemma Sextets(e: nat, g: nat, k: nat)
    requires e < 256 && g < 256 && k < 256
    ensures Sar(e, 2) == e / 4 && BitOr(Shl(BitAnd(e, 3), 4), Sar(g, 4)) == e % 4 * 16 + g / 16
    ensures BitOr(Shl(BitAnd(g, 15), 2), Sar(k, 6)) == g % 16 * 4 + k / 64 && BitAnd(k, 63) == k % 64
  {
    hide BitAnd, BitOr, Shl, Sar, Pow2;
    SmallPowers();
    MaskValue(e, 2);
    Masks(g);
    Masks(k);
    SarSmall(e, 2);
    SarSmall(g, 4);
    SarSmall(k, 6);
    ShlSmall(e % 4, 4);
    ShlSmall(g % 16, 2);
    OrSum(e % 4 * 16, g / 16, 4);
    OrSum(g % 16 * 4, k / 64, 2);
  }

  // ------------------------------------------------------------ decoding

  /** The indices of the characters that are not white space; None if one is in no alphabet. */
  function Symbols(s: string, d: nat): Option<seq<nat>>
    requires d <= |s|
    decreases |s| - d
  {
    if d == |s| then Some([])
    else match ByteOf(s[d])
      case None => if IsSpace(s[d]) then Symbols(s, d + 1) else None
      case Some(v) =>
        match Symbols(s, d + 1)
        case None => None
        case Some(rest) => Some([v] + rest)
  }

  /** What four indices stand for. */
  function Group(e: nat, f: nat, g: nat, h: nat): seq<int> {
    [BitOr(Shl(e, 2), Sar(f, 4))]
    + (if g == 64 then []
       else [BitOr(BitAnd(Shl(f, 4), 240), Sar(g, 2))]
            + (if h == 64 then [] else [BitOr(BitAnd(Shl(g, 6), 192), h)]))
  }

  /** Missing indices at the end count as 0 for the second and as padding for the others. */
  function Values(v: seq<nat>): seq<int> {
    if v == [] then []
    else
      Group(v[0], if 1 < |v| then v[1] else 0, if 2 < |v| then v[2] else 64, if 3 < |v| then v[3] else 64)
      + (if |v| <= 4 then [] else Values(v[4..]))
  }

  /** decodeStringToByteArray; None when it throws. */
  function Decode(s: string): Option<seq<int>> {
    match Symbols(s, 0)
    case None => None
    case Some(v) => Some(Values(v))
  }

  /** The inner function c: the next index from d on, or `other` at the end. */
  method NextIndex(a: string, d: nat, other: int) returns (r: Option<int>, d': nat, ghost took: seq<nat>)
    requires d <= |a|
    ensures d <= d' <= |a| && |took| <= 1
    ensures r.None? ==> Symbols(a, d) == None
    ensures r.Some? ==> Symbols(a, d) == Prepend(took, Symbols(a, d'))
    ensures r.Some? && took == [] ==> r.value == other && d' == |a|
    ensures r.Some? && took != [] ==> r.value == took[0] && d' > d
  {
    hide IsSpace, ByteOf;
    d' := d;
    took := [];
    while d' < |a|
      invariant d <= d' <= |a| && Symbols(a, d') == Symbols(a, d)
    {
      var c := a[d'];
      d' := d' + 1;
      var e := ByteOf(c);
      if e.Some? {
        took := [e.value];
        return Some(e.value), d', took;
      }
      if !IsSpace(c) { return None, d', took; }
    }
    PrependNothing(Symbols(a, d'));
    r := Some(other);
  }

  ghost function Prepend(took: seq<nat>, rest: Option<seq<nat>>): Option<seq<nat>> {
    match rest
    case None => None
    case Some(v) => Some(took + v)
  }

  lemma PrependNothing(v: Option<seq<nat>>)
    ensures Prepend([], v) == v
  {
    if v.Some? { assert [] + v.value == v.value; }
  }

  lemma PrependTwice(a: seq<nat>, b: seq<nat>, v: Option<seq<nat>>)
    ensures Prepend(a, Prepend(b, v)) == Prepend(a + b, v)
  {
    if v.Some? { SeqAssoc(a, b, v.value); }
  }

  /** The result so far followed by what the remaining indices stand for. */
  ghost function Finish(out: seq<int>, v: Option<seq<nat>>): Option<seq<int>> {
    match v
    case None => None
    case Some(x) => Some(out + Values(x))
  }

  lemma FinishGroup(out: seq<int>, took: seq<nat>, rest: Option<seq<nat>>, e: nat, f: nat, g: nat, h: nat)
    requires 1 <= |took| <= 4 && e == took[0] && f == (if 1 < |took| then took[1] else 0)
    requires g == (if 2 < |took| then took[2] else 64) && h == (if 3 < |took| then took[3] else 64)
    requires |took| < 4 ==> rest == Some([])
    ensures Finish(out, Prepend(took, rest)) == Finish(out + Group(e, f, g, h), rest)
  {
    hide Group;
    if rest.Some? {
      var v := took + rest.value;
      assert v[0] == took[0];
      assert |took| == 4 ==> v[4..] == rest.value;
      SeqAssoc(out, Group(e, f, g, h), Values(rest.value));
    }
  }

  /** decodeStringInternal_ with a callback that collects the values. */
  method DecodeStringToByteArray(a: string) returns (r: Option<seq<int>>)
    ensures r == Decode(a)
  {
    hide Symbols, Values, BitOr, BitAnd, Shl, Sar, Prepend;
    var out: seq<int> := [];
    var d := 0;
    FinishStart(Symbols(a, 0));
    while true
      invariant 0 <= d <= |a| && Finish(out, Symbols(a, d)) == Decode(a)
      decreases |a| - d
    {
      ghost var start := Symbols(a, d);
      ghost var t1, t2, t3, t4;
      var e, f, g, h;
      e, d, t1 := NextIndex(a, d, -1);
      if e.None? { return None; }
      SymbolsEnd(a);
      f, d, t2 := NextIndex(a, d, 0);
      PrependTwice(t1, t2, Symbols(a, d));
      if f.None? { PrependNone(t1); return None; }
      g, d, t3 := NextIndex(a, d, 64);
      PrependTwice(t1 + t2, t3, Symbols(a, d));
      if g.None? { PrependNone(t1 + t2); return None; }
      h, d, t4 := NextIndex(a, d, 64);
      PrependTwice(t1 + t2 + t3, t4, Symbols(a, d));
      if h.None? { PrependNone(t1 + t2 + t3); return None; }
      if 64 == h.value && -1 == e.value {
        FinishEnd(out);
        break;
      }
      ghost var before := out;
      FinishGroup(out, t1 + t2 + t3 + t4, Symbols(a, d), e.value, f.value, g.value, h.value);
      out := out + [BitOr(Shl(e.value, 2), Sar(f.value, 4))];
      if 64 != g.value {
        out := out + [BitOr(BitAnd(Shl(f.value, 4), 240), Sar(g.value, 2))];
        if 64 != h.value {
          out := out + [BitOr(BitAnd(Shl(g.value, 6), 192), h.value)];
        }
      }
      assert out == before + Group(e.value, f.value, g.value, h.value);
    }
    r := Some(out);
  }

  lemma FinishEnd(out: seq<int>)
    ensures Finish(out, Some([])) == Some(out)
  {
    assert out + Values([]) == out;
  }

  lemma PrependNone(t: seq<nat>)
    ensures Prepend(t, None) == None
  {
  }

  lemma SymbolsEnd(a: string)
    ensures Symbols(a, |a|) == Some([])
  {
  }

  lemma FinishStart(v: Option<seq<nat>>)
    ensures Finish([], v) == match v case None => None case Some(x) => Some(Values(x))
  {
    if v.Some? { assert [] + Values(v.value) == Values(v.value); }
  }

  // ------------------------------------------------------------ round trip

  lemma {:induction false} SymbolsShift(s: string, t: string, j: nat)
    requires j <= |t|
    ensures Symbols(s + t, |s| + j) == Symbols(t, j)
    decreases |t| - j
  {
    hide IsSpace, ByteOf;
    if j < |t| {
      assert (s + t)[|s| + j] == t[j];
      SymbolsShift(s, t, j + 1);
      assert |s| + j + 1 == |s| + (j + 1);
    }
  }

  ghost function Cat(a: Option<seq<nat>>, b: Option<seq<nat>>): Option<seq<nat>> {
    if a.Some? && b.Some? then Some(a.value + b.value) else None
  }

  /** Reading two strings in a row reads each. */
  lemma {:induction false} SymbolsAppend(s: string, t: string, i: nat)
    requires i <= |s|
    ensures Symbols(s + t, i) == Cat(Symbols(s, i), Symbols(t, 0))
    decreases |s| - i
  {
    hide IsSpace, ByteOf;
    if i < |s| {
      assert (s + t)[i] == s[i];
      SymbolsAppend(s, t, i + 1);
      if ByteOf(s[i]).Some? && Symbols(s, i + 1).Some? && Symbols(t, 0).Some? {
        SeqAssoc([ByteOf(s[i]).value], Symbols(s, i + 1).value, Symbols(t, 0).value);
      }
    } else {
      SymbolsShift(s, t, 0);
      if Symbols(t, 0).Some? { assert [] + Symbols(t, 0).value == Symbols(t, 0).value; }
    }
  }

  /** Decoding throws if and only if some character is in no alphabet and no white space. */
  lemma DecodeThrowsIff(s: string)
    ensures Decode(s) == None <==> exists i :: 0 <= i < |s| && ByteOf(s[i]) == None && !IsSpace(s[i])
  {
    hide Symbols, Values, ByteOf, IsSpace;
    SymbolsIff(s, 0);
  }

  lemma {:induction false} SymbolsIff(s: string, d: nat)
    requires d <= |s|
    ensures Symbols(s, d) == None <==> exists i :: d <= i < |s| && ByteOf(s[i]) == None && !IsSpace(s[i])
    decreases |s| - d
  {
    hide ByteOf, IsSpace;
    if d < |s| { SymbolsIff(s, d + 1); }
  }

  /** Four indices below 64 are three octets; with two or three of them it is one or two. */
  lemma GroupIs(e: nat, f: nat, g: nat, h: nat)
    requires e < 64 && f < 64 && g < 64 && h < 64
    ensures Group(e, f, g, h) == [e * 4 + f / 16, f % 16 * 16 + g / 4, g % 4 * 64 + h]
    ensures Group(e, f, g, 64) == [e * 4 + f / 16, f % 16 * 16 + g / 4] && Group(e, f, 64, 64) == [e * 4 + f / 16]
  {
    hide BitOr, BitAnd, Shl, Sar, Pow2;
    SmallPowers();
    ShlSmall(e, 2);
    SarSmall(f, 4);
    OrSum(e * 4, f / 16, 2);
    ShlSmall(f, 4);
    HighMask(f);
    SarSmall(g, 2);
    OrSum(f % 16 * 16, g / 4, 4);
    ShlSmall(g, 6);
    HighMask(g);
    OrSum(g % 4 * 64, h, 6);
  }

  /** Groups follow one another; what is missing in the last one counts as 0 for the second index
      and as padding for the third and fourth. */
  lemma ValuesIs(v: seq<nat>)
    ensures |v| == 0 ==> Values(v) == []
    ensures |v| == 1 ==> Values(v) == Group(v[0], 0, 64, 64)
    ensures |v| == 2 ==> Values(v) == Group(v[0], v[1], 64, 64)
    ensures |v| == 3 ==> Values(v) == Group(v[0], v[1], v[2], 64)
    ensures |v| >= 4 ==> Values(v) == Group(v[0], v[1], v[2], v[3]) + Values(v[4..])
  {
    hide Group;
    if |v| == 4 { assert v[4..] == []; }
  }

  /** s without its white space, from i on. */
  function Strip(s: string, i: nat): (r: string)
    requires i <= |s|
    ensures |r| <= |s| - i
    decreases |s| - i
  {
    if i == |s| then "" else (if IsSpace(s[i]) then "" else [s[i]]) + Strip(s, i + 1)
  }

  lemma {:induction false} StrippedSymbols(s: string, i: nat)
    requires i <= |s|
    ensures Symbols(s, i) == Symbols(Strip(s, i), 0)
    decreases |s| - i
  {
    hide ByteOf, IsSpace;
    if i < |s| {
      StrippedSymbols(s, i + 1);
      var t := Strip(s, i + 1);
      if IsSpace(s[i]) {
        SpaceIsNoSymbol(s[i]);
        assert Strip(s, i) == "" + t == t;
      } else {
        SymbolsShift([s[i]], t, 0);
        assert Strip(s, i)[0] == s[i];
      }
    }
  }

  lemma SpaceIsNoSymbol(c: char)
    requires IsSpace(c)
    ensures ByteOf(c) == None
  {
  }

  /** White space anywhere in any string changes nothing, not even whether it throws. */
  lemma SpaceIsIgnored(s: string)
    ensures Decode(s) == Decode(Strip(s, 0))
  {
    hide Values, Symbols, Strip;
    StrippedSymbols(s, 0);
  }

  /** The index of an alphabet's character, nothing for padding that the alphabet lacks. */
  function Written(alphabet: Alphabet, i: nat): seq<nat> {
    if CharOf(alphabet, i) == "" then [] else [i]
  }

  lemma SymbolsOfChar(alphabet: Alphabet, i: nat)
    ensures Symbols(CharOf(alphabet, i), 0) == Some(Written(alphabet, i))
  {
    hide CharOf, ByteOf, IsSpace;
    MapsAgree(alphabet, i);
    var s := CharOf(alphabet, i);
    assert Symbols(s, |s|) == Some([]);
    if s != "" {
      assert |s| == 1 && Symbols(s, 1) == Some([]);
      assert [i] + [] == [i];
    }
  }

  function Indexed(alphabet: Alphabet, x: (nat, nat, nat, nat)): seq<nat> {
    Written(alphabet, x.0) + Written(alphabet, x.1) + Written(alphabet, x.2) + Written(alphabet, x.3)
  }

  lemma SymbolsOfQuad(alphabet: Alphabet, x: (nat, nat, nat, nat))
    ensures Symbols(Quad(alphabet, x), 0) == Some(Indexed(alphabet, x))
  {
    hide CharOf, Symbols, Written;
    var a, b, c, d := CharOf(alphabet, x.0), CharOf(alphabet, x.1), CharOf(alphabet, x.2), CharOf(alphabet, x.3);
    SymbolsOfChar(alphabet, x.0);
    SymbolsOfChar(alphabet, x.1);
    SymbolsOfChar(alphabet, x.2);
    SymbolsOfChar(alphabet, x.3);
    SymbolsAppend(a, b, 0);
    SymbolsAppend(a + b, c, 0);
    SymbolsAppend(a + b + c, d, 0);
  }

  /** The indices behind an encoding. */
  function AllIndices(alphabet: Alphabet, a: seq<byte>, d: nat): seq<nat>
    decreases |a| - d
  {
    if d >= |a| then [] else Indexed(alphabet, Indices(a, d)) + AllIndices(alphabet, a, d + 3)
  }

  lemma {:induction false} SymbolsOfEncoding(alphabet: Alphabet, a: seq<byte>, d: nat)
    ensures Symbols(Encode(alphabet, a, d), 0) == Some(AllIndices(alphabet, a, d))
    decreases |a| - d
  {
    hide Quad, Indexed, Indices;
    if d < |a| {
      var x := Indices(a, d);
      SymbolsOfQuad(alphabet, x);
      SymbolsOfEncoding(alphabet, a, d + 3);
      SymbolsAppend(Quad(alphabet, x), Encode(alphabet, a, d + 3), 0);
    }
  }

  /** One to three bytes from d on. */
  function Three(a: seq<byte>, d: nat): seq<int>
    requires d < |a|
  {
    [a[d]] + (if d + 1 < |a| then [a[d + 1]] else []) + (if d + 2 < |a| then [a[d + 2]] else [])
  }

  /** A full group of indices gives back its three bytes, a short one its one or two. */
  lemma GroupValue(a: seq<byte>, d: nat)
    requires d < |a|
    ensures var (e, f, g, h) := Indices(a, d);
            Group(e, f, g, h) == Three(a, d)
  {
    hide BitOr, BitAnd, Shl, Sar;
    var e: nat := a[d];
    var g: nat := if d + 1 < |a| then a[d + 1] else 0;
    var k: nat := if d + 2 < |a| then a[d + 2] else 0;
    Octets(e, g, k);
  }

  lemma Octets(e: nat, g: nat, k: nat)
    requires e < 256 && g < 256 && k < 256
    ensures BitOr(Shl(e / 4, 2), Sar(e % 4 * 16 + g / 16, 4)) == e
    ensures BitOr(BitAnd(Shl(e % 4 * 16 + g / 16, 4), 240), Sar(g % 16 * 4 + k / 64, 2)) == g
    ensures BitOr(BitAnd(Shl(g % 16 * 4 + k / 64, 6), 192), k % 64) == k
  {
    hide BitOr, BitAnd, Shl, Sar, Pow2;
    SmallPowers();
    var f, h := e % 4 * 16 + g / 16, g % 16 * 4 + k / 64;
    ShlSmall(e / 4, 2);
    SarSmall(f, 4);
    assert f / 16 == e % 4;
    OrSum(e / 4 * 4, e % 4, 2);
    ShlSmall(f, 4);
    HighMask(f);
    SarSmall(h, 2);
    assert h / 4 == g % 16 && f % 16 == g / 16;
    OrSum(g / 16 * 16, g % 16, 4);
    ShlSmall(h, 6);
    assert h % 4 == k / 64;
    HighMask(h);
    OrSum(k / 64 * 64, k % 64, 6);
  }

  /** Masking the low end of a shifted index. */
  lemma HighMask(f: nat)
    requires f < 64
    ensures BitAnd(f * 16, 240) == f % 16 * 16 && BitAnd(f * 64, 192) == f % 4 * 64
  {
    hide And;
    MaskFour(f);
    MaskTwo(f);
  }

  lemma MaskFour(f: nat)
    requires f < 64
    ensures And(f * 16, 240) == f % 16 * 16
  {
    hide And, Pow2;
    SmallPowers();
    AndMask(f, 4);
    AndTwice(f * 8, 120);
    AndTwice(f * 4, 60);
    AndTwice(f * 2, 30);
    AndTwice(f, 15);
  }

  lemma MaskTwo(f: nat)
    requires f < 64
    ensures And(f * 64, 192) == f % 4 * 64
  {
    hide And, Pow2;
    SmallPowers();
    AndMask(f, 2);
    AndTwice(f * 32, 96);
    AndTwice(f * 16, 48);
    AndTwice(f * 8, 24);
    AndTwice(f * 4, 12);
    AndTwice(f * 2, 6);
    AndTwice(f, 3);
  }

  lemma AndTwice(x: nat, m: nat)
    ensures And(2 * x, 2 * m) == 2 * And(x, m)
  {
    hide And;
    DivModUnique(2 * x, 2, x, 0);
    AndDouble(2 * x, m);
  }

  lemma ValuesStep(v: seq<nat>, rest: seq<nat>, x: (nat, nat, nat, nat))
    requires 2 <= |v| <= 4 && v[0] == x.0 && v[1] == x.1 && (|v| < 4 ==> rest == [])
    requires (if 2 < |v| then v[2] == x.2 else x.2 == 64) && (if 3 < |v| then v[3] == x.3 else x.3 == 64)
    ensures Values(v + rest) == Group(x.0, x.1, x.2, x.3) + Values(rest)
  {
    hide Group;
    var w := v + rest;
    assert |v| == 4 ==> w[4..] == rest;
    assert rest == [] ==> w == v;
  }

  lemma {:induction false} ValuesOfIndices(alphabet: Alphabet, a: seq<byte>, d: nat)
    ensures d <= |a| ==> Values(AllIndices(alphabet, a, d)) == Suffix(a, d)
    ensures d > |a| ==> Values(AllIndices(alphabet, a, d)) == []
    decreases |a| - d
  {
    hide Group, Indices, Indexed, Values, Suffix, Three;
    if d < |a| {
      var x := Indices(a, d);
      var v, rest := Indexed(alphabet, x), AllIndices(alphabet, a, d + 3);
      assert AllIndices(alphabet, a, d) == v + rest;
      GroupValue(a, d);
      IndicesAre(a, d);
      IndexedLength(alphabet, x);
      assert d + 2 >= |a| ==> rest == [];
      ValuesOfIndices(alphabet, a, d + 3);
      ValuesStep(v, rest, x);
      SuffixThree(a, d);
    } else {
      NoValues(a, d);
    }
  }

  lemma SuffixThree(a: seq<byte>, d: nat)
    requires d < |a|
    ensures Suffix(a, d) == Three(a, d) + (if d + 3 <= |a| then Suffix(a, d + 3) else [])
  {
  }

  lemma NoValues(a: seq<byte>, d: nat)
    ensures Values([]) == []
    ensures d == |a| ==> Suffix(a, d) == []
  {
  }

  /** The first two indices, and all of a full group, are below 64. */
  lemma IndicesAre(a: seq<byte>, d: nat)
    requires d < |a|
    ensures var x := Indices(a, d);
            && x.0 < 64 && x.1 < 64
            && (if d + 1 < |a| then x.2 < 64 else x.2 == 64)
            && (if d + 2 < |a| then x.3 < 64 else x.3 == 64)
  {
  }

  lemma IndexedLength(alphabet: Alphabet, x: (nat, nat, nat, nat))
    requires x.0 < 64 && x.1 < 64 && x.2 <= 64 && x.3 <= 64 && (x.2 == 64 ==> x.3 == 64)
    ensures var v := Indexed(alphabet, x);
            && 2 <= |v| <= 4 && v[0] == x.0 && v[1] == x.1
            && (if 2 < |v| then v[2] == x.2 else x.2 == 64)
            && (if 3 < |v| then v[3] == x.3 else x.3 == 64)
            && (x.3 < 64 ==> |v| == 4)
  {
    MapsAgree(alphabet, x.0);
    MapsAgree(alphabet, x.1);
    MapsAgree(alphabet, x.2);
    MapsAgree(alphabet, x.3);
  }

  /** The one decoder undoes the encoder of every alphabet. */
  lemma RoundTrip(alphabet: Alphabet, a: seq<byte>)
    ensures Decode(Encode(alphabet, a, 0)) == Some(a)
  {
    hide Encode, Symbols, Values, AllIndices;
    SymbolsOfEncoding(alphabet, a, 0);
    ValuesOfIndices(alphabet, a, 0);
    SuffixAll(a);
  }

  // ------------------------------------------------------------ decodeStringToUint8Array

  predicate IsPadding(c: char) { c == '=' || c == '.' }

  /** The length of the typed array: three quarters of the string's, less its padding. */
  function Capacity(s: string): nat {
    var b := |s|;
    var c := 3 * b / 4;
    if b % 4 != 0 then c
    else if b > 0 && IsPadding(s[b - 1]) then if IsPadding(s[b - 2]) then c - 2 else c - 1
    else c
  }

  /** Values that do not fit are dropped, the others stored modulo 256. */
  function Stored(v: seq<int>, c: nat): seq<byte> {
    seq(if |v| < c then |v| else c, i requires 0 <= i < |v| => v[i] % 256)
  }

  function DecodeBytes(s: string): Option<seq<byte>> {
    match Decode(s)
    case None => None
    case Some(v) => Some(Stored(v, Capacity(s)))
  }

  method DecodeStringToUint8Array(s: string) returns (r: Option<seq<byte>>)
    ensures r == DecodeBytes(s)
  {
    hide Decode, Capacity;
    var v := DecodeStringToByteArray(s);
    if v.None? { return None; }
    var d := new byte[Capacity(s)](_ => 0);
    for e := 0 to |v.value|
      invariant forall i :: 0 <= i < e && i < d.Length ==> d[i] == v.value[i] % 256
    {
      if e < d.Length { d[e] := v.value[e] % 256; }
    }
    var n := if |v.value| < d.Length then |v.value| else d.Length;
    r := Some(d[..n]);
    assert d[..n] == Stored(v.value, d.Length);
  }

  predicate Padded(alphabet: Alphabet) { alphabet.Default? || alphabet.Websafe? || alphabet.WebsafeDotPadding? }

  function EncodedLength(alphabet: Alphabet, m: nat): nat {
    if Padded(alphabet) then (m + 2) / 3 * 4 else (4 * m + 2) / 3
  }

  /** Length and padding of an encoding. */
  lemma {:induction false} EncodingShape(alphabet: Alphabet, a: seq<byte>, d: nat)
    requires d <= |a|
    ensures var s, m := Encode(alphabet, a, d), |a| - d;
            && |s| == EncodedLength(alphabet, m)
            && (m > 0 ==> |s| >= 2
                          && (IsPadding(s[|s| - 1]) <==> Padded(alphabet) && m % 3 != 0)
                          && (IsPadding(s[|s| - 2]) <==> Padded(alphabet) && m % 3 == 1))
    decreases |a| - d
  {
    hide Indices, Quad, IsPadding, EncodedLength;
    LengthSmall(alphabet, |a| - d);
    if d < |a| {
      var x, m := Indices(a, d), |a| - d;
      IndicesAre(a, d);
      QuadShape(alphabet, x);
      if m > 3 {
        EncodingShape(alphabet, a, d + 3);
        LengthStep(alphabet, m);
      } else {
        assert Encode(alphabet, a, d + 3) == "";
        assert Quad(alphabet, x) + "" == Quad(alphabet, x);
      }
    }
  }

  lemma LengthStep(alphabet: Alphabet, m: nat)
    requires m > 3
    ensures EncodedLength(alphabet, m) == 4 + EncodedLength(alphabet, m - 3) && m % 3 == (m - 3) % 3
  {
    DivModUnique(m, 3, (m - 3) / 3 + 1, (m - 3) % 3);
    DivModUnique(m + 2, 3, (m - 1) / 3 + 1, (m - 1) % 3);
    var x := 4 * (m - 3) + 2;
    DivModUnique(4 * m + 2, 3, x / 3 + 4, x % 3);
  }

  lemma LengthSmall(alphabet: Alphabet, m: nat)
    ensures m == 0 ==> EncodedLength(alphabet, m) == 0
    ensures m == 1 ==> EncodedLength(alphabet, m) == if Padded(alphabet) then 4 else 2
    ensures m == 2 ==> EncodedLength(alphabet, m) == if Padded(alphabet) then 4 else 3
    ensures m == 3 ==> EncodedLength(alphabet, m) == 4
  {
  }

  /** A short group ends with one or two paddings, or has as many characters less. */
  lemma QuadShape(alphabet: Alphabet, x: (nat, nat, nat, nat))
    requires x.0 < 64 && x.1 < 64 && x.2 <= 64 && x.3 <= 64 && (x.2 == 64 ==> x.3 == 64)
    ensures var q := Quad(alphabet, x);
            && |q| == (if Padded(alphabet) || x.3 < 64 then 4 else if x.2 < 64 then 3 else 2)
            && (IsPadding(q[|q| - 1]) <==> Padded(alphabet) && x.3 == 64)
            && (IsPadding(q[|q| - 2]) <==> Padded(alphabet) && x.2 == 64)
  {
    hide CharOf, IsPadding;
    CharShape(alphabet, x.0);
    CharShape(alphabet, x.1);
    CharShape(alphabet, x.2);
    CharShape(alphabet, x.3);
  }

  lemma CharShape(alphabet: Alphabet, i: nat)
    requires i <= 64
    ensures var s := CharOf(alphabet, i);
            && |s| == (if i < 64 || Padded(alphabet) then 1 else 0)
            && (s != "" ==> (IsPadding(s[0]) <==> i == 64))
  {
  }

  lemma {:induction false} StripAll(s: string, i: nat)
    requires i <= |s| && |Strip(s, i)| == |s| - i
    ensures Strip(s, i) == Suffix(s, i)
    decreases |s| - i
  {
    hide IsSpace;
    if i < |s| {
      StripAll(s, i + 1);
      SuffixNext(s, i);
    }
  }

  lemma {:induction false} StripLast(s: string, i: nat)
    requires i < |s| && !IsSpace(s[|s| - 1])
    ensures Strip(s, i) != "" && Strip(s, i)[|Strip(s, i)| - 1] == s[|s| - 1]
    decreases |s| - i
  {
    hide IsSpace;
    if i + 1 < |s| { StripLast(s, i + 1); } else { assert Strip(s, i + 1) == ""; }
  }

  /** Nothing of an encoding is lost to the size of the array, white space put in or not. */
  lemma ArrayRoundTrip(alphabet: Alphabet, a: seq<byte>, s: string)
    requires Strip(s, 0) == Encode(alphabet, a, 0)
    ensures Decode(s) == Some(a) && DecodeBytes(s) == Some(a)
  {
    hide Decode, Strip, Encode;
    SpaceIsIgnored(s);
    RoundTrip(alphabet, a);
    EnoughCapacity(alphabet, a, s);
    assert Stored(a, Capacity(s)) == a;
  }

  lemma EnoughCapacity(alphabet: Alphabet, a: seq<byte>, s: string)
    requires Strip(s, 0) == Encode(alphabet, a, 0)
    ensures Capacity(s) >= |a|
  {
    hide Strip, Encode, IsSpace, EncodedLength, Capacity;
    EncodingShape(alphabet, a, 0);
    PaddingIsNoSpace();
    var q := WholeGroups(alphabet, |a|);
    var c := CapacityIs(s);
    if |Strip(s, 0)| == |s| {
      StripAll(s, 0);
      SuffixAll(s);
    } else if !IsSpace(s[|s| - 1]) {
      StripLast(s, 0);
    }
  }

  /** An encoding has room for its bytes: q groups, the last one perhaps short. */
  lemma WholeGroups(alphabet: Alphabet, m: nat) returns (q: nat)
    ensures m == 3 * q - (if m % 3 == 0 then 0 else 3 - m % 3)
    ensures if Padded(alphabet) then EncodedLength(alphabet, m) == 4 * q else 3 * EncodedLength(alphabet, m) >= 4 * m
  {
    q := (m + 2) / 3;
    var p, r := m / 3, m % 3;
    if r == 0 { DivModUnique(m + 2, 3, p, 2); } else { DivModUnique(m + 2, 3, p + 1, r - 1); }
  }

  lemma CapacityIs(s: string) returns (c: nat)
    ensures 3 * |s| - 3 <= 4 * c <= 3 * |s|
    ensures |s| % 4 == 0 ==> 4 * c == 3 * |s| && (|s| > 0 ==> |s| >= 4)
    ensures Capacity(s) == if |s| % 4 != 0 || |s| == 0 || !IsPadding(s[|s| - 1]) then c
                           else if IsPadding(s[|s| - 2]) then c - 2 else c - 1
  {
    c := 3 * |s| / 4;
  }

  lemma PaddingIsNoSpace()
    ensures !IsSpace('=') && !IsSpace('.')
  {
  }

  /** Padding where an index should be gives a value of nine bits, of which the array keeps eight. */
  lemma StrayPadding()
    ensures Decode("=AAA") == Some([256, 0, 0]) && DecodeBytes("=AAA") == Some([0, 0, 0])
  {
    hide Symbols, Values, Group, ByteOf;
    var s := "=AAA";
    StrayBytes();
    SymbolsEnd(s);
    SymbolNext(s, 3, 0, [], [0]);
    SymbolNext(s, 2, 0, [0], [0, 0]);
    SymbolNext(s, 1, 0, [0, 0], [0, 0, 0]);
    SymbolNext(s, 0, 64, [0, 0, 0], [64, 0, 0, 0]);
    StrayGroup();
    ValuesIs([64, 0, 0, 0]);
    ValuesIs([]);
    assert [64, 0, 0, 0][4..] == [] && [256, 0, 0] + [] == [256, 0, 0];
    assert Stored([256, 0, 0], 3) == [0, 0, 0];
  }

  lemma StrayBytes()
    ensures ByteOf('=') == Some(64) && ByteOf('A') == Some(0) && Capacity("=AAA") == 3
  {
  }

  lemma SymbolNext(s: string, d: nat, v: nat, rest: seq<nat>, all: seq<nat>)
    requires d < |s| && ByteOf(s[d]) == Some(v) && Symbols(s, d + 1) == Some(rest) && all == [v] + rest
    ensures Symbols(s, d) == Some(all)
  {
    hide ByteOf, IsSpace;
  }

  lemma StrayGroup()
    ensures Group(64, 0, 0, 0) == [256, 0, 0]
  {
    hide BitOr, BitAnd, Shl, Sar, Pow2;
    GroupIs(0, 0, 0, 0);
    assert Group(64, 0, 0, 0)[1] == Group(0, 0, 0, 0)[1] && Group(64, 0, 0, 0)[2] == Group(0, 0, 0, 0)[2];
    SmallPowers();
    ShlSmall(64, 2);
    SarSmall(0, 4);
    OrSum(256, 0, 2);
  }
}
