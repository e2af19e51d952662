/** When deserializing comes to an end, on arbitrary bytes. The loops of the deserializers and of
    the group skipping look at one field header after another; a skipped field whose length
    reads as negative moves the cursor back. */
module ParseTermination {
  import opened Common
  import opened Doubles
  import opened Js
  import opened Varints
  import opened WireFormat
  import opened BinaryDecoder
  import opened BinaryReader
  import opened Packets
  import Utf8

  // ------------------------------------------------------------ more fuel, same outcome

  /** A run that has finished is not changed by letting it look at more fields. */
  lemma {:induction false} FieldEndMore(bytes: seq<byte>, c: nat, end: int, num: nat, wire: nat, fuel: nat, more: nat)
    requires fuel <= more && FieldEnd(bytes, c, end, num, wire, fuel) != Unfinished
    ensures FieldEnd(bytes, c, end, num, wire, more) == FieldEnd(bytes, c, end, num, wire, fuel)
    decreases fuel, 1
  {
    hide LengthAt, AfterVarint, GroupEnd;
    if wire == START_GROUP { GroupEndMore(bytes, c, end, num, fuel, more); }
  }

  lemma {:induction false} GroupEndMore(bytes: seq<byte>, c: int, end: int, num: nat, fuel: nat, more: nat)
    requires fuel <= more && GroupEnd(bytes, c, end, num, fuel) != Unfinished
    ensures GroupEnd(bytes, c, end, num, more) == GroupEnd(bytes, c, end, num, fuel)
    decreases fuel, 0
  {
    hide FieldEnd, FieldAt;
    var f := FieldAt(bytes, c, end);
    if f.Field? && f.wire != END_GROUP {
      FieldAtForward(bytes, c, end);
      FieldEndMore(bytes, f.cursor, end, f.num, f.wire, fuel - 1, more - 1);
      var o := FieldEnd(bytes, f.cursor, end, f.num, f.wire, fuel - 1);
      if o.Done? { GroupEndMore(bytes, o.value, end, num, fuel - 1, more - 1); }
    }
  }

  lemma {:induction false} ParseMore(bytes: seq<byte>, c: int, end: int, m: Msg, fuel: nat, more: nat)
    requires fuel <= more && Parse(bytes, c, end, m, fuel) != Unfinished
    ensures Parse(bytes, c, end, m, more) == Parse(bytes, c, end, m, fuel)
    decreases fuel, 0
  {
    hide ParseField, FieldAt;
    var f := FieldAt(bytes, c, end);
    if f.Field? && f.wire != END_GROUP {
      FieldAtForward(bytes, c, end);
      ParseFieldMore(bytes, f.cursor, end, m, f.num, f.wire, fuel - 1, more - 1);
      var o := ParseField(bytes, f.cursor, end, m, f.num, f.wire, fuel - 1);
      if o.Done? { ParseMore(bytes, o.value.1, end, o.value.0, fuel - 1, more - 1); }
    }
  }

  lemma {:induction false} ParseFieldMore(bytes: seq<byte>, c: nat, end: int, m: Msg, num: nat, wire: nat, fuel: nat, more: nat)
    requires fuel <= more && ParseField(bytes, c, end, m, num, wire, fuel) != Unfinished
    ensures ParseField(bytes, c, end, m, num, wire, more) == ParseField(bytes, c, end, m, num, wire, fuel)
    decreases fuel, 1
  {
    hide LengthAt, Int64At, StringAt, FieldEnd, Parse, PutNumber, PutText, PutNested;
    match SlotOf(KindOf(m), num)
    case Number =>
    case Text =>
    case Nested(k) =>
      if wire == DELIMITED && LengthAt(bytes, c, end).Some? {
        var (a, d) := LengthAt(bytes, c, end).value;
        ParseMore(bytes, d, d + a, Blank(k), fuel, more);
      }
    case Unknown => FieldEndMore(bytes, c, end, num, wire, fuel, more);
  }

  lemma FieldAtForward(bytes: seq<byte>, c: int, end: int)
    ensures var f := FieldAt(bytes, c, end); f.Field? ==> 0 <= c < f.cursor <= end
  {
  }

  // ------------------------------------------------------------ the headers a run looks at

  /** A header looked at: by the loop of a message of some kind, or (None) inside a group that
      is being skipped. */
  datatype Head = Head(kind: Option<Kind>, c: int, end: int)

  /** The field at x is taken up. */
  ghost predicate Opens(bytes: seq<byte>, x: Head) {
    var f := FieldAt(bytes, x.c, x.end); f.Field? && f.wire != END_GROUP
  }

  /** The field at x is skipped as a whole. */
  ghost predicate Skipped(bytes: seq<byte>, x: Head)
    requires Opens(bytes, x)
  {
    x.kind == None || SlotOf(x.kind.value, FieldAt(bytes, x.c, x.end).num) == Unknown
  }

  /** The field at x starts a loop of its own, at y. */
  ghost predicate Inside(bytes: seq<byte>, x: Head, y: Head) {
    && Opens(bytes, x)
    && var f := FieldAt(bytes, x.c, x.end);
       if Skipped(bytes, x) then f.wire == START_GROUP && y == Head(None, f.cursor, x.end)
       else
         && SlotOf(x.kind.value, f.num).Nested? && f.wire == DELIMITED && LengthAt(bytes, f.cursor, x.end).Some?
         && var (a, d) := LengthAt(bytes, f.cursor, x.end).value;
            y == Head(Some(SlotOf(x.kind.value, f.num).kind), d, d + a)
  }

  /** Where the loop goes on after the field at x; None if it does not within the fuel. */
  ghost function After(bytes: seq<byte>, x: Head, fuel: nat): Outcome<int>
    requires Opens(bytes, x)
  {
    var f := FieldAt(bytes, x.c, x.end);
    match x.kind
    case None => FieldEnd(bytes, f.cursor, x.end, f.num, f.wire, fuel)
    case Some(k) =>
      match ParseField(bytes, f.cursor, x.end, Blank(k), f.num, f.wire, fuel)
      case Done((_, d)) => Done(d)
      case Threw => Threw
      case Unfinished => Unfinished
  }

  ghost predicate Next(bytes: seq<byte>, x: Head, y: Head) {
    && Opens(bytes, x) && y.kind == x.kind && y.end == x.end
    && exists fuel: nat :: After(bytes, x, fuel) == Done(y.c)
  }

  /** The run that looks at x also looks at y. */
  ghost predicate Leads(bytes: seq<byte>, x: Head, y: Head) {
    Inside(bytes, x, y) || Next(bytes, x, y)
  }

  ghost predicate Path(bytes: seq<byte>, p: seq<Head>) {
    |p| > 0 && forall i :: 0 <= i < |p| - 1 ==> Leads(bytes, p[i], p[i + 1])
  }

  /** The run from x comes back to a header without having left the loop it was in. */
  ghost predicate Circles(bytes: seq<byte>, x: Head) {
    exists p: seq<Head>, i: nat, j: nat :: Circle(bytes, x, p, i, j)
  }

  ghost predicate Circle(bytes: seq<byte>, x: Head, p: seq<Head>, i: nat, j: nat) {
    Path(bytes, p) && p[0] == x && i < j < |p| && p[i] == p[j]
  }

  /** What a loop at x makes of the field there depends on the message's kind only. */
  lemma AfterAny(bytes: seq<byte>, x: Head, m: Msg, fuel: nat)
    requires Opens(bytes, x) && x.kind == Some(KindOf(m))
    ensures var f, o := FieldAt(bytes, x.c, x.end), After(bytes, x, fuel);
            var r := ParseField(bytes, f.cursor, x.end, m, f.num, f.wire, fuel);
            && (r.Unfinished? <==> o.Unfinished?) && (r.Done? <==> o.Done?)
            && (r.Done? ==> r.value.1 == o.value && KindOf(r.value.0) == KindOf(m))
  {
    hide LengthAt, Int64At, StringAt, FieldEnd, Parse, PutNumber, PutText, PutNested, FieldAt;
  }

  lemma AfterAgrees(bytes: seq<byte>, x: Head, fuel: nat, other: nat)
    requires Opens(bytes, x) && !After(bytes, x, fuel).Unfinished? && !After(bytes, x, other).Unfinished?
    ensures After(bytes, x, fuel) == After(bytes, x, other)
  {
    hide FieldEnd, ParseField, FieldAt;
    var f := FieldAt(bytes, x.c, x.end);
    FieldAtForward(bytes, x.c, x.end);
    var low, high := if fuel < other then fuel else other, if fuel < other then other else fuel;
    match x.kind
    case None => FieldEndMore(bytes, f.cursor, x.end, f.num, f.wire, low, high);
    case Some(k) => ParseFieldMore(bytes, f.cursor, x.end, Blank(k), f.num, f.wire, low, high);
  }

  // ------------------------------------------------------------ a circle never ends

  /** Not finished within the fuel, whatever the message so far and the group's number. */
  ghost predicate Stuck(bytes: seq<byte>, x: Head, fuel: nat) {
    match x.kind
    case None => forall num: nat :: GroupEnd(bytes, x.c, x.end, num, fuel) == Unfinished
    case Some(k) => forall m: Msg :: KindOf(m) == k ==> Parse(bytes, x.c, x.end, m, fuel) == Unfinished
  }

  lemma StuckBefore(bytes: seq<byte>, x: Head, y: Head, fuel: nat)
    requires Leads(bytes, x, y) && fuel > 0 && Stuck(bytes, y, fuel - 1)
    ensures Stuck(bytes, x, fuel)
  {
    hide Inside, Stuck, After, Opens;
    LeadsOpens(bytes, x, y);
    var o := After(bytes, x, fuel - 1);
    if Inside(bytes, x, y) {
      InsideStuck(bytes, x, y, fuel - 1);
    } else {
      var g: nat :| After(bytes, x, g) == Done(y.c);
      if !o.Unfinished? { AfterAgrees(bytes, x, fuel - 1, g); }
    }
    StepStuck(bytes, x, fuel);
  }

  lemma LeadsOpens(bytes: seq<byte>, x: Head, y: Head)
    requires Leads(bytes, x, y)
    ensures Opens(bytes, x)
  {
    hide Opens;
  }

  lemma InsideStuck(bytes: seq<byte>, x: Head, y: Head, fuel: nat)
    requires Inside(bytes, x, y) && Stuck(bytes, y, fuel)
    ensures After(bytes, x, fuel) == Unfinished
  {
    hide FieldAt, LengthAt, Parse, GroupEnd, Int64At, StringAt, PutNumber, PutText, PutNested;
    var f := FieldAt(bytes, x.c, x.end);
    if Skipped(bytes, x) {
      assert GroupEnd(bytes, f.cursor, x.end, f.num, fuel) == Unfinished;
    } else {
      var k := SlotOf(x.kind.value, f.num).kind;
      var blank := Blank(k);
      assert KindOf(blank) == k;
      assert Parse(bytes, y.c, y.end, blank, fuel) == Unfinished;
    }
  }

  lemma StepStuck(bytes: seq<byte>, x: Head, fuel: nat)
    requires Opens(bytes, x) && fuel > 0
    requires var o := After(bytes, x, fuel - 1);
             o.Unfinished? || (o.Done? && Stuck(bytes, Head(x.kind, o.value, x.end), fuel - 1))
    ensures Stuck(bytes, x, fuel)
  {
    hide FieldAt, FieldEnd, ParseField;
    match x.kind
    case None =>
      forall num: nat ensures GroupEnd(bytes, x.c, x.end, num, fuel) == Unfinished {
        GroupStep(bytes, x.c, x.end, num, fuel);
      }
    case Some(k) =>
      forall m: Msg | KindOf(m) == k ensures Parse(bytes, x.c, x.end, m, fuel) == Unfinished {
        AfterAny(bytes, x, m, fuel - 1);
      }
  }

  lemma {:induction false} CircleStuck(bytes: seq<byte>, p: seq<Head>, b: nat, i: nat, fuel: nat)
    requires Path(bytes, p) && b < |p| - 1 && p[b] == p[|p| - 1] && i < |p| - 1
    ensures Stuck(bytes, p[i], fuel)
    decreases fuel
  {
    hide Leads;
    if fuel > 0 {
      CircleStuck(bytes, p, b, if i + 1 == |p| - 1 then b else i + 1, fuel - 1);
      StuckBefore(bytes, p[i], p[i + 1], fuel);
    }
  }

  // ------------------------------------------------------------ a run that never ends circles

  /** What the run at x comes to, for a group of the given number or with a message of x's kind. */
  ghost predicate Finishes(bytes: seq<byte>, x: Head, num: nat, m: Msg, fuel: nat) {
    if x.kind == None then GroupEnd(bytes, x.c, x.end, num, fuel) != Unfinished
    else Parse(bytes, x.c, x.end, m, fuel) != Unfinished
  }

  ghost predicate Suits(x: Head, m: Msg) {
    x.kind == None || x.kind == Some(KindOf(m))
  }

  /** A run that is not finished goes on at a next header with one field less to look at. */
  lemma GoesOn(bytes: seq<byte>, x: Head, num: nat, m: Msg, fuel: nat) returns (y: Head, num': nat, m': Msg)
    requires fuel > 0 && Suits(x, m) && !Finishes(bytes, x, num, m, fuel)
    ensures Leads(bytes, x, y) && Suits(y, m') && !Finishes(bytes, y, num', m', fuel - 1)
    ensures 0 <= x.c < x.end
  {
    var f := FieldAt(bytes, x.c, x.end);
    FieldAtForward(bytes, x.c, x.end);
    hide FieldAt, LengthAt, Int64At, StringAt, PutNumber, PutText, PutNested;
    Taken(bytes, x, num, m, fuel);
    var o := After(bytes, x, fuel - 1);
    if o.Unfinished? {
      y, m' := EntersLoop(bytes, x, fuel - 1);
      num' := f.num;
    } else {
      y, num' := Head(x.kind, o.value, x.end), num;
      m' := Continued(bytes, x, num, m, fuel);
      assert Next(bytes, x, y);
    }
  }

  /** An unfinished run has taken up the field, and not thrown. */
  lemma Taken(bytes: seq<byte>, x: Head, num: nat, m: Msg, fuel: nat)
    requires fuel > 0 && Suits(x, m) && !Finishes(bytes, x, num, m, fuel)
    ensures Opens(bytes, x) && !After(bytes, x, fuel - 1).Threw?
  {
    hide FieldAt, FieldEnd, ParseField;
    if x.kind == None {
      GroupStep(bytes, x.c, x.end, num, fuel);
    } else if Opens(bytes, x) {
      AfterAny(bytes, x, m, fuel - 1);
    }
  }

  lemma Continued(bytes: seq<byte>, x: Head, num: nat, m: Msg, fuel: nat) returns (m': Msg)
    requires fuel > 0 && Suits(x, m) && !Finishes(bytes, x, num, m, fuel)
    requires Opens(bytes, x) && After(bytes, x, fuel - 1).Done?
    ensures var y := Head(x.kind, After(bytes, x, fuel - 1).value, x.end);
            Suits(y, m') && !Finishes(bytes, y, num, m', fuel - 1)
  {
    hide FieldAt, FieldEnd, ParseField;
    m' := m;
    if x.kind == None {
      GroupStep(bytes, x.c, x.end, num, fuel);
    } else {
      AfterAny(bytes, x, m, fuel - 1);
      var f := FieldAt(bytes, x.c, x.end);
      m' := ParseField(bytes, f.cursor, x.end, m, f.num, f.wire, fuel - 1).value.0;
    }
  }

  /** Only a loop inside a field can leave it unfinished. */
  lemma EntersLoop(bytes: seq<byte>, x: Head, fuel: nat) returns (y: Head, m: Msg)
    requires Opens(bytes, x) && After(bytes, x, fuel) == Unfinished
    ensures Inside(bytes, x, y) && Suits(y, m)
    ensures !Finishes(bytes, y, FieldAt(bytes, x.c, x.end).num, m, fuel)
  {
    hide FieldAt, LengthAt, Parse, GroupEnd, Int64At, StringAt, PutNumber, PutText, PutNested;
    var f := FieldAt(bytes, x.c, x.end);
    m := Blank(MessageKind);
    if Skipped(bytes, x) {
      y := Head(None, f.cursor, x.end);
    } else {
      var k := SlotOf(x.kind.value, f.num).kind;
      var (a, d) := LengthAt(bytes, f.cursor, x.end).value;
      y, m := Head(Some(k), d, d + a), Blank(k);
    }
  }

  /** The headers that an unfinished run has looked at, one for each unit of fuel. */
  lemma {:induction false} Trail(bytes: seq<byte>, x: Head, num: nat, m: Msg, fuel: nat) returns (p: seq<Head>)
    requires Suits(x, m) && !Finishes(bytes, x, num, m, fuel)
    ensures Path(bytes, p) && p[0] == x && |p| == fuel + 1
    ensures forall i :: 0 <= i < fuel ==> 0 <= p[i].c < p[i].end
    decreases fuel
  {
    hide Leads, Finishes;
    if fuel == 0 {
      p := [x];
    } else {
      var y, num', m' := GoesOn(bytes, x, num, m, fuel);
      var rest := Trail(bytes, y, num', m', fuel - 1);
      p := [x] + rest;
      forall i | 0 <= i < |p| - 1 ensures Leads(bytes, p[i], p[i + 1]) {
        if i > 0 { assert p[i] == rest[i - 1] && p[i + 1] == rest[i]; }
      }
    }
  }

  /** Packets contain the other messages, and these and packets contain groups. */
  function Rank(x: Head): nat {
    if x.kind == None then 2 else if x.kind.value.PacketKind? then 0 else 1
  }

  /** No block inside ends behind this: a nested message announces less than 2^32 bytes. */
  function Top(x: Head): nat {
    (if x.end > 0 then x.end else 0) + (if x.kind == Some(PacketKind) then 0x1_0000_0000 else 0)
  }

  lemma LeadsRank(bytes: seq<byte>, x: Head, y: Head)
    requires Leads(bytes, x, y)
    ensures Top(y) <= Top(x) && Rank(x) <= Rank(y)
    ensures Rank(x) == Rank(y) ==> x.kind == y.kind && x.end == y.end
  {
    hide FieldAt, After;
    if Inside(bytes, x, y) && !Skipped(bytes, x) {
      var f := FieldAt(bytes, x.c, x.end);
      FieldAtForward(bytes, x.c, x.end);
      LengthBound(bytes, f.cursor, x.end);
    }
  }

  lemma LengthBound(bytes: seq<byte>, c: nat, end: int)
    requires LengthAt(bytes, c, end).Some?
    ensures var (a, d) := LengthAt(bytes, c, end).value; a < 0x1_0000_0000 && c < d <= end
  {
    hide Payload, VarintLen;
  }

  lemma {:induction false} PathRank(bytes: seq<byte>, p: seq<Head>, i: nat, j: nat)
    requires Path(bytes, p) && i <= j < |p|
    ensures Top(p[j]) <= Top(p[i]) && Rank(p[i]) <= Rank(p[j])
    ensures Rank(p[i]) == Rank(p[j]) ==> p[i].kind == p[j].kind && p[i].end == p[j].end
    decreases j
  {
    hide Leads, Rank, Top;
    if i < j {
      PathRank(bytes, p, i, j - 1);
      LeadsRank(bytes, p[j - 1], p[j]);
    }
  }

  lemma NoneBelowZero(keys: seq<nat>)
    requires |keys| > 0
    ensures !(forall k :: 0 <= k < |keys| ==> keys[k] < 0)
  {
    assert keys[0] >= 0;
  }

  /** More than n numbers below n are not all different. */
  lemma {:induction false} Pigeonhole(keys: seq<nat>, n: nat) returns (i: nat, j: nat)
    requires |keys| > n && forall k :: 0 <= k < |keys| ==> keys[k] < n
    ensures i < j < |keys| && keys[i] == keys[j]
    decreases n
  {
    if n == 0 {
      NoneBelowZero(keys);
      assert false;
    } else if a :| 0 <= a < |keys| && keys[a] == n - 1 {
      if b :| 0 <= b < |keys| && b != a && keys[b] == n - 1 {
        i, j := if a < b then a else b, if a < b then b else a;
      } else {
        var others := keys[..a] + keys[a + 1..];
        var k, l := Pigeonhole(others, n - 1);
        i, j := if k < a then k else k + 1, if l < a then l else l + 1;
      }
    } else {
      i, j := Pigeonhole(keys, n - 1);
    }
  }

  /** How many fields a run can look at before it must have come back to one. */
  function Limit(x: Head): nat { 3 * Top(x) + 1 }

  /** The position with the rank as the leading digit. */
  function Key(x: Head, top: nat): int {
    x.c + (match Rank(x) case 0 => 0 case 1 => top case _ => 2 * top)
  }

  lemma KeyBound(x: Head, top: nat)
    requires 0 <= x.c < x.end && Top(x) <= top
    ensures 0 <= Key(x, top) < 3 * top && x.c < top
  {
  }

  lemma SameKey(x: Head, y: Head, top: nat)
    requires Key(x, top) == Key(y, top) && 0 <= x.c < top && 0 <= y.c < top
    ensures x.c == y.c && Rank(x) == Rank(y)
  {
  }

  lemma LongPathCircles(bytes: seq<byte>, p: seq<Head>)
    requires Path(bytes, p) && |p| == Limit(p[0]) + 1
    requires forall i :: 0 <= i < |p| - 1 ==> 0 <= p[i].c < p[i].end
    ensures Circles(bytes, p[0])
  {
    hide Path, Rank, Top, Key, Limit;
    var top := Top(p[0]);
    LimitIs(p[0]);
    forall i | 0 <= i < |p| - 1 ensures 0 <= Key(p[i], top) < 3 * top && p[i].c < top {
      PathRank(bytes, p, 0, i);
      KeyBound(p[i], top);
    }
    var keys: seq<nat> := seq(|p| - 1, i requires 0 <= i < |p| - 1 => Key(p[i], top));
    var i, j := Pigeonhole(keys, 3 * top);
    SameKey(p[i], p[j], top);
    PathRank(bytes, p, i, j);
    assert Circle(bytes, p[0], p, i, j);
  }

  lemma LimitIs(x: Head)
    ensures Limit(x) == 3 * Top(x) + 1
  {
    hide Top;
  }

  /** A run ends (with a value or an exception) if and only if it never comes back to a field
      header without having left the loop it met it in; and if it ends, it does so within a
      number of fields known beforehand. */
  lemma RunEndsIff(bytes: seq<byte>, x: Head, num: nat, m: Msg)
    requires Suits(x, m)
    ensures (exists fuel: nat :: Finishes(bytes, x, num, m, fuel)) <==> !Circles(bytes, x)
    ensures Finishes(bytes, x, num, m, Limit(x)) <==> !Circles(bytes, x)
  {
    hide Leads, Limit, FieldAt, FieldEnd, ParseField;
    if Circles(bytes, x) {
      var p, i: nat, j: nat :| Circle(bytes, x, p, i, j);
      var q := p[..j + 1];
      forall fuel: nat ensures !Finishes(bytes, x, num, m, fuel) {
        CircleStuck(bytes, q, i, 0, fuel);
      }
    } else if !Finishes(bytes, x, num, m, Limit(x)) {
      var p := Trail(bytes, x, num, m, Limit(x));
      LongPathCircles(bytes, p);
    }
  }

  /** Deserializing ends if and only if its run does not circle. */
  lemma DeserializingEndsIff(bytes: seq<byte>, c: int, end: int, m: Msg)
    ensures var x := Head(Some(KindOf(m)), c, end);
            && ((exists fuel: nat :: Parse(bytes, c, end, m, fuel) != Unfinished) <==> !Circles(bytes, x))
            && (Parse(bytes, c, end, m, Limit(x)) != Unfinished <==> !Circles(bytes, x))
  {
    hide Parse, GroupEnd, Circles, Limit;
    var x := Head(Some(KindOf(m)), c, end);
    RunEndsIff(bytes, x, 0, m);
    if fuel: nat :| Finishes(bytes, x, 0, m, fuel) { assert Parse(bytes, c, end, m, fuel) != Unfinished; }
    if fuel: nat :| Parse(bytes, c, end, m, fuel) != Unfinished { assert Finishes(bytes, x, 0, m, fuel); }
  }

  /** So does skipping a group. */
  lemma SkippingEndsIff(bytes: seq<byte>, c: int, end: int, num: nat)
    ensures var x := Head(None, c, end);
            && ((exists fuel: nat :: GroupEnd(bytes, c, end, num, fuel) != Unfinished) <==> !Circles(bytes, x))
            && (GroupEnd(bytes, c, end, num, Limit(x)) != Unfinished <==> !Circles(bytes, x))
  {
    hide Parse, GroupEnd, Circles, Limit;
    var x := Head(None, c, end);
    RunEndsIff(bytes, x, num, Blank(PacketKind));
    var m := Blank(PacketKind);
    if fuel: nat :| Finishes(bytes, x, num, m, fuel) { assert GroupEnd(bytes, c, end, num, fuel) != Unfinished; }
    if fuel: nat :| GroupEnd(bytes, c, end, num, fuel) != Unfinished { assert Finishes(bytes, x, num, m, fuel); }
  }

  // ------------------------------------------------------------ the branch that goes back

  /** The field at x is a delimited one that is skipped, and its length reads as negative. */
  ghost predicate Backward(bytes: seq<byte>, x: Head) {
    && Opens(bytes, x) && Skipped(bytes, x)
    && var f := FieldAt(bytes, x.c, x.end);
       && f.wire == DELIMITED && LengthAt(bytes, f.cursor, x.end).Some?
       && LengthAt(bytes, f.cursor, x.end).value.0 < 0
  }

  /** No such field is met on the run from x. */
  ghost predicate OnlyForward(bytes: seq<byte>, x: Head) {
    forall p: seq<Head> :: Path(bytes, p) && p[0] == x ==> !Backward(bytes, p[|p| - 1])
  }

  lemma ForwardHere(bytes: seq<byte>, x: Head)
    requires OnlyForward(bytes, x)
    ensures !Backward(bytes, x)
  {
    assert Path(bytes, [x]) && [x][0] == x && [x][|[x]| - 1] == x;
  }

  lemma ForwardThere(bytes: seq<byte>, x: Head, y: Head)
    requires OnlyForward(bytes, x) && Leads(bytes, x, y)
    ensures OnlyForward(bytes, y)
  {
    hide Leads, Backward;
    forall p: seq<Head> | Path(bytes, p) && p[0] == y ensures !Backward(bytes, p[|p| - 1]) {
      var q := [x] + p;
      forall i | 0 <= i < |q| - 1 ensures Leads(bytes, q[i], q[i + 1]) {
        if i > 0 { assert q[i] == p[i - 1] && q[i + 1] == p[i]; }
      }
      assert q[|q| - 1] == p[|p| - 1];
    }
  }

  /** Then skipping a field goes forward. */
  lemma {:induction false} SkipForward(bytes: seq<byte>, x: Head, fuel: nat)
    requires OnlyForward(bytes, x) && Opens(bytes, x) && Skipped(bytes, x)
    requires var f := FieldAt(bytes, x.c, x.end); FieldEnd(bytes, f.cursor, x.end, f.num, f.wire, fuel).Done?
    ensures var f := FieldAt(bytes, x.c, x.end);
            FieldEnd(bytes, f.cursor, x.end, f.num, f.wire, fuel).value > x.c
    decreases fuel, 1
  {
    var f := FieldAt(bytes, x.c, x.end);
    FieldAtForward(bytes, x.c, x.end);
    ForwardHere(bytes, x);
    hide FieldAt, LengthAt, GroupEnd, OnlyForward;
    if f.wire == DELIMITED {
      LengthBound(bytes, f.cursor, x.end);
    } else if f.wire == START_GROUP {
      var y := Head(None, f.cursor, x.end);
      assert Inside(bytes, x, y);
      ForwardThere(bytes, x, y);
      GroupForward(bytes, y, f.num, fuel);
    }
  }

  lemma {:induction false} GroupForward(bytes: seq<byte>, x: Head, num: nat, fuel: nat)
    requires x.kind == None && OnlyForward(bytes, x) && GroupEnd(bytes, x.c, x.end, num, fuel).Done?
    ensures GroupEnd(bytes, x.c, x.end, num, fuel).value > x.c
    decreases fuel, 0
  {
    hide FieldAt, FieldEnd, GroupEnd, OnlyForward, After, Inside;
    GroupStart(bytes, x.c, x.end, num);
    if fuel > 0 {
      GroupStep(bytes, x.c, x.end, num, fuel);
      FieldAtForward(bytes, x.c, x.end);
      if Opens(bytes, x) {
        AfterSkipped(bytes, x, fuel - 1);
        SkipForward(bytes, x, fuel - 1);
        var y := Head(None, After(bytes, x, fuel - 1).value, x.end);
        assert Next(bytes, x, y);
        ForwardThere(bytes, x, y);
        GroupForward(bytes, y, num, fuel - 1);
      }
    }
  }

  /** Every field that is read and not skipped goes forward: a nested message of negative length
      throws, a string of negative length reads nothing. */
  lemma ReadForward(bytes: seq<byte>, x: Head, fuel: nat)
    requires Opens(bytes, x) && !Skipped(bytes, x) && After(bytes, x, fuel).Done?
    ensures After(bytes, x, fuel).value > x.c
  {
    var f := FieldAt(bytes, x.c, x.end);
    FieldAtForward(bytes, x.c, x.end);
    hide FieldAt, LengthAt, Int64At, StringAt, PutNumber, PutText, PutNested, FieldEnd;
    match SlotOf(x.kind.value, f.num)
    case Number => NumberForward(bytes, f.cursor, f.wire);
    case Text => TextForward(bytes, f.cursor, x.end, f.wire);
    case Nested(k) =>
      LengthBound(bytes, f.cursor, x.end);
      var (a, d) := LengthAt(bytes, f.cursor, x.end).value;
      if a < 0 { EmptyBlock(bytes, d, d + a, Blank(k), fuel); }
    case Unknown =>
  }

  /** A block that ends before it begins throws. */
  lemma EmptyBlock(bytes: seq<byte>, c: int, end: int, m: Msg, fuel: nat)
    requires end < c
    ensures !Parse(bytes, c, end, m, fuel).Done?
  {
    hide ParseField;
  }

  lemma NumberForward(bytes: seq<byte>, c: nat, wire: nat)
    ensures Int64At(bytes, c, wire).Some? ==> Int64At(bytes, c, wire).value.1 >= c
  {
    hide ToDouble;
  }

  lemma TextForward(bytes: seq<byte>, c: nat, end: int, wire: nat)
    ensures StringAt(bytes, c, end, wire).Some? ==> StringAt(bytes, c, end, wire).value.1 >= c
  {
    hide Utf8.Decode, Unsigned32;
  }

  lemma LeadsForward(bytes: seq<byte>, x: Head, y: Head)
    requires OnlyForward(bytes, x) && Leads(bytes, x, y)
    ensures y.c > x.c
  {
    var f := FieldAt(bytes, x.c, x.end);
    FieldAtForward(bytes, x.c, x.end);
    hide FieldAt, LengthAt, FieldEnd, OnlyForward, ParseField;
    if Inside(bytes, x, y) {
      if !Skipped(bytes, x) { LengthBound(bytes, f.cursor, x.end); }
    } else {
      var fuel: nat :| After(bytes, x, fuel) == Done(y.c);
      if Skipped(bytes, x) {
        AfterSkipped(bytes, x, fuel);
        SkipForward(bytes, x, fuel);
      } else {
        ReadForward(bytes, x, fuel);
      }
    }
  }

  lemma AfterSkipped(bytes: seq<byte>, x: Head, fuel: nat)
    requires Opens(bytes, x) && Skipped(bytes, x)
    ensures var f := FieldAt(bytes, x.c, x.end);
            After(bytes, x, fuel) == FieldEnd(bytes, f.cursor, x.end, f.num, f.wire, fuel)
  {
    hide FieldAt, FieldEnd;
  }

  lemma {:induction false} PathForward(bytes: seq<byte>, p: seq<Head>, i: nat, j: nat)
    requires Path(bytes, p) && i < j < |p| && OnlyForward(bytes, p[i])
    ensures p[j].c > p[i].c && OnlyForward(bytes, p[j])
    decreases j
  {
    hide Leads, OnlyForward;
    if i + 1 < j { PathForward(bytes, p, i, j - 1); }
    LeadsForward(bytes, p[j - 1], p[j]);
    ForwardThere(bytes, p[j - 1], p[j]);
  }

  /** So a run that skips no delimited field of negative length ends. Other varints that read as
      negative, such as enums and timestamps, do not matter. */
  lemma ForwardEnds(bytes: seq<byte>, c: int, end: int, m: Msg)
    requires OnlyForward(bytes, Head(Some(KindOf(m)), c, end))
    ensures Parse(bytes, c, end, m, Limit(Head(Some(KindOf(m)), c, end))) != Unfinished
  {
    hide Parse, Limit, OnlyForward, Path;
    var x := Head(Some(KindOf(m)), c, end);
    DeserializingEndsIff(bytes, c, end, m);
    if Circles(bytes, x) {
      var p, i: nat, j: nat :| Circle(bytes, x, p, i, j);
      StartForward(bytes, p, i);
      PathForward(bytes, p, i, j);
    }
  }

  lemma StartForward(bytes: seq<byte>, p: seq<Head>, i: nat)
    requires Path(bytes, p) && i < |p| && OnlyForward(bytes, p[0])
    ensures OnlyForward(bytes, p[i])
  {
    hide OnlyForward;
    if i > 0 { PathForward(bytes, p, 0, i); }
  }

  // ------------------------------------------------------------ an input that never ends

  /** Field 5, which no message of packet_pb.js has, delimited, with the ten-byte length -11: the
      skip puts the cursor back to the start. */
  const ENDLESS: seq<byte> := [0x2A, 0xF5, 0xFF, 0xFF, 0xFF, 0xFF, 0xFF, 0xFF, 0xFF, 0xFF, 0x01]

  lemma EndlessLength()
    ensures Unsigned32(ENDLESS, 0) == Some((0x2A, 1)) && Unsigned32(ENDLESS, 1) == Some((-11, 10))
  {
    var b := ENDLESS;
    assert VarintLen(b, 0, 10) == 1 && Payload(b, 1, 0) == 0 && Payload(b, 0, 1) == 0x2A;
    assert VarintLen(b, 10, 1) == 1 && Payload(b, 11, 0) == 0 && Payload(b, 10, 1) == 1;
    assert VarintLen(b, 9, 2) == 2 && Payload(b, 9, 2) == 0xFF;
    assert VarintLen(b, 8, 3) == 3 && Payload(b, 8, 3) == 0x7FFF;
    assert VarintLen(b, 7, 4) == 4 && Payload(b, 7, 4) == 0x3F_FFFF;
    assert VarintLen(b, 6, 5) == 5 && Payload(b, 6, 5) == 0x1FFF_FFFF;
    assert VarintLen(b, 5, 6) == 6 && Payload(b, 5, 6) == 0xF_FFFF_FFFF;
    assert VarintLen(b, 4, 7) == 7 && Payload(b, 4, 7) == 0x7FF_FFFF_FFFF;
    assert VarintLen(b, 3, 8) == 8 && Payload(b, 3, 8) == 0x3_FFFF_FFFF_FFFF;
    assert VarintLen(b, 2, 9) == 9 && Payload(b, 2, 9) == 0x1FF_FFFF_FFFF_FFFF;
    assert VarintLen(b, 1, 10) == 10 && Payload(b, 1, 10) == 0xFFFF_FFFF_FFFF_FFF5;
  }

  /** Deserializing these eleven bytes as any of the three messages never ends. */
  lemma EndlessExample(m: Msg, fuel: nat)
    ensures Parse(ENDLESS, 0, 11, m, fuel) == Unfinished
    ensures Backward(ENDLESS, Head(Some(KindOf(m)), 0, 11))
  {
    var x := Head(Some(KindOf(m)), 0, 11);
    EndlessLength();
    hide Unsigned32, PutNumber, PutText, PutNested, Parse;
    assert After(ENDLESS, x, 0) == Done(0);
    assert Next(ENDLESS, x, x);
    var p := [x, x];
    assert Circle(ENDLESS, x, p, 0, 1);
    hide Circle;
    DeserializingEndsIff(ENDLESS, 0, 11, m);
  }
}
