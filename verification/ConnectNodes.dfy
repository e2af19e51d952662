/** The load index of connect nodes (ConnectNodeLoadServiceImpl): which nodes are available with
    what load, and which nodes serve each channel. */
module ConnectNodes {
  import opened Bits
  import opened JavaLong

  // ------------------------------------------------------------ abstract state

  /** Loads by node id, and per channel the ids of the nodes that its users are connected to, one
      entry for each user. */
  datatype State = State(loads: map<string, int>, lists: map<string, seq<string>>)

  datatype Op =
    | Start(id: string, load: int)
    | Stop(id: string)
    | Connect(id: string, channel: string)
    | Disconnect(id: string, channel: string)

  function ListOf(lists: map<string, seq<string>>, channel: string): seq<string> {
    if channel in lists then lists[channel] else []
  }

  /** List.remove(Object): the first occurrence. */
  function RemoveFirst(s: seq<string>, x: string): seq<string> {
    if s == [] then [] else if s[0] == x then s[1..] else [s[0]] + RemoveFirst(s[1..], x)
  }

  /** Loads are Java ints. An unknown node makes connect and disconnect throw before they change
      anything. A disconnect lowers the load whether or not it finds the node in the list, and does not
      store a list for a channel that has none. */
  function Step(s: State, op: Op): State {
    match op
    case Start(id, load) => s.(loads := s.loads[id := load])
    case Stop(id) => s.(loads := s.loads - {id})
    case Connect(id, c) =>
      if id !in s.loads then s
      else State(s.loads[id := WrapInt(s.loads[id] + 1)], s.lists[c := ListOf(s.lists, c) + [id]])
    case Disconnect(id, c) =>
      if id !in s.loads then s
      else State(s.loads[id := WrapInt(s.loads[id] - 1)],
                 if c in s.lists then s.lists[c := RemoveFirst(s.lists[c], id)] else s.lists)
  }

  // ------------------------------------------------------------ counting

  function Count(s: seq<string>, x: string): nat {
    if s == [] then 0 else (if s[0] == x then 1 else 0) + Count(s[1..], x)
  }

  lemma {:induction false} CountAppend(s: seq<string>, y: string, x: string)
    ensures Count(s + [y], x) == Count(s, x) + if y == x then 1 else 0
  {
    if s == [] {
      assert [] + [y] == [y];
    } else {
      assert (s + [y])[1..] == s[1..] + [y];
      CountAppend(s[1..], y, x);
    }
  }

  lemma {:induction false} CountRemove(s: seq<string>, y: string, x: string)
    ensures Count(RemoveFirst(s, y), x) == Count(s, x) - if y == x && y in s then 1 else 0
  {
    if s != [] && s[0] != y {
      assert RemoveFirst(s, y)[1..] == RemoveFirst(s[1..], y);
      CountRemove(s[1..], y, x);
    }
  }

  lemma {:induction false} CountIn(s: seq<string>, x: string)
    ensures x in s <==> Count(s, x) > 0
  {
    if s != [] { CountIn(s[1..], x); }
  }

  /** Occurrences of x in the lists of some channels. */
  ghost function Total(lists: map<string, seq<string>>, channels: set<string>, x: string): nat
    requires channels <= lists.Keys
  {
    if channels == {} then 0
    else
      var c :| c in channels;
      Count(lists[c], x) + Total(lists, channels - {c}, x)
  }

  /** The channels can be counted in any order. */
  lemma {:induction false} TotalPick(lists: map<string, seq<string>>, channels: set<string>, x: string, c: string)
    requires channels <= lists.Keys && c in channels
    ensures Total(lists, channels, x) == Count(lists[c], x) + Total(lists, channels - {c}, x)
    decreases channels
  {
    var d :| d in channels && Total(lists, channels, x) == Count(lists[d], x) + Total(lists, channels - {d}, x);
    if d != c {
      TotalPick(lists, channels - {d}, x, c);
      TotalPick(lists, channels - {c}, x, d);
      assert channels - {d} - {c} == channels - {c} - {d};
    }
  }

  lemma {:induction false} TotalSame(a: map<string, seq<string>>, b: map<string, seq<string>>, channels: set<string>, x: string)
    requires channels <= a.Keys && channels <= b.Keys && forall c :: c in channels ==> a[c] == b[c]
    ensures Total(a, channels, x) == Total(b, channels, x)
    decreases channels
  {
    if channels != {} {
      var c :| c in channels;
      TotalPick(a, channels, x, c);
      TotalPick(b, channels, x, c);
      TotalSame(a, b, channels - {c}, x);
    }
  }

  /** A node's users: its occurrences across all lists. */
  ghost function Users(s: State, x: string): nat {
    Total(s.lists, s.lists.Keys, x)
  }

  /** Changing one channel's list changes the users by what changes there. */
  lemma UsersUpdate(s: State, c: string, list: seq<string>, x: string)
    ensures Users(s.(lists := s.lists[c := list]), x) == Users(s, x) - Count(ListOf(s.lists, c), x) + Count(list, x)
  {
    var lists' := s.lists[c := list];
    var others := s.lists.Keys - {c};
    assert lists'.Keys - {c} == others;
    TotalPick(lists', lists'.Keys, x, c);
    TotalSame(s.lists, lists', others, x);
    if c in s.lists {
      TotalPick(s.lists, s.lists.Keys, x, c);
    } else {
      assert others == s.lists.Keys;
    }
  }

  // ------------------------------------------------------------ conservation

  /** Each available node's load is the number of its users (as an int), and all users are on
      available nodes. */
  ghost predicate Conserved(s: State) {
    && (forall x :: x in s.loads ==> s.loads[x] == WrapInt(Users(s, x)))
    && (forall x :: x !in s.loads ==> Users(s, x) == 0)
  }

  /** What a caller must see to: a disconnect needs a connect that it undoes, a node may stop
      only without users, and may start only with its number of users (0, if it is new) as its load. */
  ghost predicate Fitting(s: State, op: Op) {
    match op
    case Start(id, load) => load == WrapInt(Users(s, id))
    case Stop(id) => Users(s, id) == 0
    case Connect(_, _) => true
    case Disconnect(id, c) => id in s.loads ==> id in ListOf(s.lists, c)
  }

  /** An operation keeps the loads right if and only if it is fitting. */
  lemma ConservedIff(s: State, op: Op)
    requires Conserved(s)
    ensures Conserved(Step(s, op)) <==> Fitting(s, op)
  {
    hide WrapInt, Users, RemoveFirst, ListOf, Conserved, Fitting;
    match op
    case Start(id, load) => StartIff(s, id, load);
    case Stop(id) => StopIff(s, id);
    case Connect(id, c) => ConnectConserves(s, id, c);
    case Disconnect(id, c) => DisconnectIff(s, id, c);
  }

  lemma StartIff(s: State, id: string, load: int)
    requires Conserved(s)
    ensures Conserved(Step(s, Start(id, load))) <==> Fitting(s, Start(id, load))
  {
    hide WrapInt, Users;
    var t := Step(s, Start(id, load));
    SameUsers(s, t);
    assert t.loads[id] == load;
  }

  lemma StopIff(s: State, id: string)
    requires Conserved(s)
    ensures Conserved(Step(s, Stop(id))) <==> Fitting(s, Stop(id))
  {
    hide WrapInt, Users;
    var t := Step(s, Stop(id));
    SameUsers(s, t);
    assert id !in t.loads;
  }

  lemma ConnectConserves(s: State, id: string, c: string)
    requires Conserved(s)
    ensures Conserved(Step(s, Connect(id, c))) && Fitting(s, Connect(id, c))
  {
    hide WrapInt, Users, ListOf;
    if id in s.loads {
      var t := Step(s, Connect(id, c));
      WrapNext(Users(s, id));
      forall x ensures Users(t, x) == Users(s, x) + if x == id then 1 else 0 {
        UsersUpdate(s, c, ListOf(s.lists, c) + [id], x);
        SameUsers(s.(lists := t.lists), t);
        CountAppend(ListOf(s.lists, c), id, x);
      }
    }
  }

  lemma DisconnectIff(s: State, id: string, c: string)
    requires Conserved(s)
    ensures Conserved(Step(s, Disconnect(id, c))) <==> Fitting(s, Disconnect(id, c))
  {
    hide WrapInt, Users, RemoveFirst;
    if id in s.loads {
      var t := Step(s, Disconnect(id, c));
      WrapNext(Users(s, id));
      forall x ensures Users(t, x) == Users(s, x) - if x == id && id in ListOf(s.lists, c) then 1 else 0 {
        if c in s.lists {
          UsersUpdate(s, c, RemoveFirst(s.lists[c], id), x);
          CountRemove(s.lists[c], id, x);
        }
        SameUsers(s.(lists := t.lists), t);
      }
      assert t.loads[id] == WrapInt(s.loads[id] - 1);
    }
  }

  /** Counting up and down commutes with wrapping, and never stands still. */
  lemma WrapNext(u: int)
    ensures WrapInt(WrapInt(u) + 1) == WrapInt(u + 1) && WrapInt(WrapInt(u) - 1) == WrapInt(u - 1)
    ensures WrapInt(WrapInt(u) - 1) != WrapInt(u)
  {
    SameWrap(WrapInt(u) + 1, u + 1, (WrapInt(u) - u) / 0x1_0000_0000);
    SameWrap(WrapInt(u) - 1, u - 1, (WrapInt(u) - u) / 0x1_0000_0000);
  }

  lemma SameWrap(x: int, y: int, q: int)
    requires x == y + q * 0x1_0000_0000
    ensures WrapInt(x) == WrapInt(y)
  {
    DivModUnique(x, 0x1_0000_0000, y / 0x1_0000_0000 + q, y % 0x1_0000_0000);
  }

  /** Below 2^31 users the load is their number. */
  lemma LoadIsUsers(s: State, x: string)
    requires Conserved(s) && x in s.loads && Users(s, x) < 0x8000_0000
    ensures s.loads[x] == Users(s, x)
  {
  }

  lemma SameUsers(s: State, t: State)
    requires s.lists == t.lists
    ensures forall x :: Users(s, x) == Users(t, x)
  {
  }

  function Run(s: State, ops: seq<Op>): State
    decreases |ops|
  {
    if ops == [] then s else Run(Step(s, ops[0]), ops[1..])
  }

  ghost predicate AllFitting(s: State, ops: seq<Op>)
    decreases |ops|
  {
    ops == [] || (Fitting(s, ops[0]) && AllFitting(Step(s, ops[0]), ops[1..]))
  }

  /** Connects less disconnects of a node in a channel, while the node was available. */
  function Balance(s: State, ops: seq<Op>, x: string, c: string): int
    decreases |ops|
  {
    if ops == [] then 0
    else
      (match ops[0]
       case Connect(id, d) => if id == x && d == c && x in s.loads then 1 else 0
       case Disconnect(id, d) => if id == x && d == c && x in s.loads then -1 else 0
       case _ => 0)
      + Balance(Step(s, ops[0]), ops[1..], x, c)
  }

  /** Over every run of fitting operations the loads stay right, and each list holds each node as
      often as the history says. */
  lemma {:induction false} RunConserves(s: State, ops: seq<Op>, x: string, c: string)
    requires Conserved(s) && AllFitting(s, ops)
    ensures Conserved(Run(s, ops))
    ensures Count(ListOf(Run(s, ops).lists, c), x) == Count(ListOf(s.lists, c), x) + Balance(s, ops, x, c)
    decreases |ops|
  {
    if ops != [] {
      ConservedIff(s, ops[0]);
      StepCounts(s, ops[0], x, c);
      RunConserves(Step(s, ops[0]), ops[1..], x, c);
    }
  }

  lemma StepCounts(s: State, op: Op, x: string, c: string)
    requires Fitting(s, op)
    ensures Count(ListOf(Step(s, op).lists, c), x) == Count(ListOf(s.lists, c), x) + Balance(s, [op], x, c)
  {
    match op
    case Start(_, _) =>
    case Stop(_) =>
    case Connect(id, d) => CountAppend(ListOf(s.lists, c), id, x);
    case Disconnect(id, d) => CountRemove(ListOf(s.lists, c), id, x);
  }

  // ------------------------------------------------------------ lookup

  /** Stream.distinct: the first occurrences, in order. */
  function Distinct(s: seq<string>): seq<string> {
    if s == [] then [] else
      var d := Distinct(s[..|s| - 1]);
      if s[|s| - 1] in d then d else d + [s[|s| - 1]]
  }

  lemma {:induction false} DistinctIs(s: seq<string>)
    ensures forall x :: x in Distinct(s) <==> x in s
    ensures forall i, j :: 0 <= i < j < |Distinct(s)| ==> Distinct(s)[i] != Distinct(s)[j]
  {
    if s != [] {
      DistinctIs(s[..|s| - 1]);
      assert s == s[..|s| - 1] + [s[|s| - 1]];
    }
  }

  /** Ids are listed by the index of their first occurrence. */
  lemma {:induction false} DistinctOrder(s: seq<string>, i: nat, j: nat, p: nat, q: nat)
    requires i < j < |Distinct(s)| && p < |s| && q < |s|
    requires s[p] == Distinct(s)[i] && s[p] !in s[..p] && s[q] == Distinct(s)[j] && s[q] !in s[..q]
    ensures p < q
    decreases |s|
  {
    var n := |s| - 1;
    var before := s[..n];
    DistinctIs(before);
    DistinctIs(s);
    if j < |Distinct(before)| {
      assert Distinct(s)[i] in before && Distinct(s)[j] in before;
      FirstBefore(s, p);
      FirstBefore(s, q);
      assert before[..p] == s[..p] && before[..q] == s[..q];
      DistinctOrder(before, i, j, p, q);
    } else {
      assert Distinct(s)[i] == Distinct(before)[i] && Distinct(s)[i] in before;
      FirstBefore(s, p);
      NotBefore(s, q);
    }
  }

  lemma NotBefore(s: seq<string>, q: nat)
    requires q < |s| && s[q] !in s[..|s| - 1]
    ensures q == |s| - 1
  {
    assert forall k :: 0 <= k < |s| - 1 ==> s[..|s| - 1][k] == s[k];
  }

  /** A first occurrence of what occurs before the last place is before it. */
  lemma FirstBefore(s: seq<string>, p: nat)
    requires p < |s| && s[p] !in s[..p] && s[p] in s[..|s| - 1]
    ensures p < |s| - 1
  {
  }

  /** The occurrence of least index goes, the order of the others stays; without one nothing does. */
  lemma {:induction false} RemoveFirstIs(s: seq<string>, x: string, p: nat)
    requires p <= |s| && x !in s[..p] && (p < |s| ==> s[p] == x)
    ensures RemoveFirst(s, x) == if p < |s| then s[..p] + s[p + 1..] else s
    decreases p
  {
    if p > 0 {
      var rest := s[1..];
      assert s[0] == s[..p][0] && s == [s[0]] + rest;
      RestWithout(s, x, p);
      RemoveFirstIs(rest, x, p - 1);
      if p < |s| { CutAt(s, p); }
    }
  }

  lemma RestWithout(s: seq<string>, x: string, p: nat)
    requires 0 < p <= |s| && x !in s[..p]
    ensures s[0] != x && x !in s[1..][..p - 1]
  {
    assert s[1..][..p - 1] == s[..p][1..] && s[0] == s[..p][0];
  }

  lemma CutAt(s: seq<string>, p: nat)
    requires 0 < p < |s|
    ensures [s[0]] + (s[1..][..p - 1] + s[1..][p..]) == s[..p] + s[p + 1..] && s[1..][p - 1] == s[p]
  {
    assert s[1..][p..] == s[p + 1..] && s[..p] == [s[0]] + s[1..][..p - 1];
  }

  /** What connecting does to an available node: its id is appended to the channel's list. */
  lemma ConnectIs(s: State, id: string, c: string)
    requires id in s.loads
    ensures var t := Step(s, Connect(id, c));
            && t.lists == s.lists[c := (if c in s.lists then s.lists[c] else []) + [id]]
            && t.loads == s.loads[id := WrapInt(s.loads[id] + 1)]
  {
    hide WrapInt;
  }

  /** Disconnecting takes away entry p, the first one with its id, if the channel has one. */
  lemma DisconnectIs(s: State, id: string, c: string, p: nat)
    requires id in s.loads && (c in s.lists ==> p <= |s.lists[c]| && id !in s.lists[c][..p])
    requires c in s.lists && p < |s.lists[c]| ==> s.lists[c][p] == id
    ensures var t := Step(s, Disconnect(id, c));
            && t.loads == s.loads[id := WrapInt(s.loads[id] - 1)]
            && t.lists == if c in s.lists && p < |s.lists[c]| then
                            s.lists[c := s.lists[c][..p] + s.lists[c][p + 1..]] else s.lists
  {
    hide WrapInt, RemoveFirst;
    if c in s.lists {
      RemoveFirstIs(s.lists[c], id, p);
      if p == |s.lists[c]| { assert s.lists[c := s.lists[c]] == s.lists; }
    }
  }

  /** Under conservation, a lookup finds exactly the available nodes with users in the channel. */
  lemma LookupFinds(s: State, c: string, x: string)
    requires Conserved(s)
    ensures x in Distinct(ListOf(s.lists, c)) <==> Count(ListOf(s.lists, c), x) > 0
    ensures x in Distinct(ListOf(s.lists, c)) ==> x in s.loads
  {
    DistinctIs(ListOf(s.lists, c));
    CountIn(ListOf(s.lists, c), x);
    if c in s.lists { TotalPick(s.lists, s.lists.Keys, x, c); }
  }
}
