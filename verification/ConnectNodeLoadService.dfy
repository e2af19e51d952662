/** ConnectNodeLoadServiceImpl and NodeWatchService as objects. */
module ConnectNodeLoadService {
  import opened Common
  import opened JavaLong
  import opened ConnectNodes

  class ConnectNodeLoad {
    const id: string
    const ip: string
    const port: int
    const wsPort: int
    var load: int

    constructor (id: string, ip: string, port: int, wsPort: int, load: int)
      ensures this.id == id && this.ip == ip && this.port == port && this.wsPort == wsPort && this.load == load
    {
      this.id, this.ip, this.port, this.wsPort, this.load := id, ip, port, wsPort, load;
    }
  }

  class ConnectNodeLoadServiceImpl {
    var availableNodes: map<string, ConnectNodeLoad>
    var channelNodeMap: map<string, seq<string>>

    constructor ()
      ensures Valid() && Abs() == State(map[], map[])
    {
      availableNodes, channelNodeMap := map[], map[];
    }

    /** Nodes are stored under their own ids. */
    ghost predicate Valid()
      reads this
    {
      forall k :: k in availableNodes ==> availableNodes[k].id == k
    }

    ghost function Abs(): State
      reads this, availableNodes.Values
    {
      State(map k | k in availableNodes :: availableNodes[k].load, channelNodeMap)
    }

    method Start(node: ConnectNodeLoad)
      requires Valid()
      modifies this`availableNodes
      ensures Valid() && availableNodes == old(availableNodes)[node.id := node]
      ensures Abs() == Step(old(Abs()), Op.Start(node.id, node.load))
    {
      availableNodes := availableNodes[node.id := node];
    }

    method Stop(node: ConnectNodeLoad)
      requires Valid()
      modifies this`availableNodes
      ensures Valid() && availableNodes == old(availableNodes) - {node.id}
      ensures Abs() == Step(old(Abs()), Op.Stop(node.id))
    {
      availableNodes := availableNodes - {node.id};
    }

    /** False when it throws, on an unknown node. */
    method Connect(nodeId: string, channelId: string) returns (ok: bool)
      requires Valid()
      modifies this`channelNodeMap, availableNodes.Values
      ensures Valid() && ok == (nodeId in availableNodes)
      ensures Abs() == Step(old(Abs()), Op.Connect(nodeId, channelId))
      ensures ok ==> channelNodeMap == old(channelNodeMap)[channelId :=
                (if channelId in old(channelNodeMap) then old(channelNodeMap)[channelId] else []) + [nodeId]]
    {
      if nodeId !in availableNodes { return false; }
      var node := availableNodes[nodeId];
      var ids := if channelId in channelNodeMap then channelNodeMap[channelId] else [];
      ids := ids + [node.id];
      channelNodeMap := channelNodeMap[channelId := ids];
      node.load := WrapInt(node.load + 1);
      ok := true;
    }

    /** False when it throws, on an unknown node. */
    method Disconnect(nodeId: string, channelId: string) returns (ok: bool)
      requires Valid()
      modifies this`channelNodeMap, availableNodes.Values
      ensures Valid() && ok == (nodeId in availableNodes)
      ensures Abs() == Step(old(Abs()), Op.Disconnect(nodeId, channelId))
    {
      if nodeId !in availableNodes { return false; }
      var node := availableNodes[nodeId];
      if channelId in channelNodeMap {
        // the list is changed where it is stored
        channelNodeMap := channelNodeMap[channelId := RemoveFirst(channelNodeMap[channelId], node.id)];
      }
      node.load := WrapInt(node.load - 1);
      ok := true;
    }

    /** The channel's nodes, each once, in order of their first user; null for an id that is not
        available. */
    method GetConnectNodeByChannelId(channelId: string) returns (r: seq<ConnectNodeLoad?>)
      requires Valid()
      ensures var ids := Distinct(ListOf(channelNodeMap, channelId));
              && |r| == |ids|
              && forall i :: 0 <= i < |r| ==> r[i] == if ids[i] in availableNodes then availableNodes[ids[i]] else null
    {
      var ids := Distinct(ListOf(channelNodeMap, channelId));
      r := [];
      for i := 0 to |ids|
        invariant |r| == i
        invariant forall k :: 0 <= k < i ==> r[k] == if ids[k] in availableNodes then availableNodes[ids[k]] else null
      {
        r := r + [if ids[i] in availableNodes then availableNodes[ids[i]] else null];
      }
    }
  }

  // ------------------------------------------------------------ NodeWatchService

  /** One service of a notification: the status of each check, and the service's data. A missing
      status, or a port that is not a number, throws when it is looked at. */
  datatype Entity = Entity(checks: seq<Option<string>>, id: string, address: string, port: int, wsPort: Option<int>)

  /** Whether some check passes; None when it throws before finding one. */
  function Passing(checks: seq<Option<string>>): Option<bool> {
    if checks == [] then Some(false)
    else if checks[0].None? then None
    else if checks[0].value == "passing" then Some(true)
    else Passing(checks[1..])
  }

  /** The i-th check passes, and every one before it has a status. */
  ghost predicate PassesAt(checks: seq<Option<string>>, i: nat) {
    i < |checks| && checks[i] == Some("passing") && forall j :: 0 <= j < i ==> checks[j].Some?
  }

  lemma PassesLater(checks: seq<Option<string>>, i: nat)
    requires checks != []
    ensures PassesAt(checks, i + 1) <==> checks[0].Some? && PassesAt(checks[1..], i)
  {
    var rest := checks[1..];
    if checks[0].Some? && PassesAt(rest, i) {
      forall j | 0 <= j < i + 1 ensures checks[j].Some? {
        if j > 0 { assert rest[j - 1] == checks[j]; }
      }
    }
    if PassesAt(checks, i + 1) {
      forall j | 0 <= j < i ensures rest[j].Some? { assert checks[j + 1].Some?; }
    }
  }

  /** Passing finds a check with that status and only statuses before it, or looks at all. */
  lemma {:induction false} PassingIff(checks: seq<Option<string>>)
    ensures Passing(checks) == Some(true) <==> exists i: nat :: PassesAt(checks, i)
    ensures Passing(checks) == Some(false) <==> None !in checks && Some("passing") !in checks
    decreases |checks|
  {
    if checks != [] {
      var rest := checks[1..];
      PassingIff(rest);
      assert checks == [checks[0]] + rest;
      if checks[0] == Some("passing") { assert PassesAt(checks, 0); }
      hide PassesAt;
      if i: nat :| PassesAt(rest, i) { PassesLater(checks, i); }
      if i: nat :| PassesAt(checks, i) {
        if i == 0 { PassesFirst(checks); } else { PassesLater(checks, i - 1); }
      }
    }
  }

  lemma PassesFirst(checks: seq<Option<string>>)
    ensures PassesAt(checks, 0) ==> |checks| > 0 && checks[0] == Some("passing")
  {
  }

  /** The services that pass, in order; None when resolving throws. */
  function Resolved(param: seq<Entity>): Option<seq<Entity>> {
    if param == [] then Some([])
    else
      match Resolved(param[..|param| - 1])
      case None => None
      case Some(es) =>
        var e := param[|param| - 1];
        match Passing(e.checks)
        case None => None
        case Some(false) => Some(es)
        case Some(true) => if e.wsPort.None? then None else Some(es + [e])
  }

  /** Services are looked at in order, the kept ones of the first part before those of the second. */
  lemma {:induction false} ResolvedAppend(a: seq<Entity>, b: seq<Entity>)
    ensures Resolved(a + b) == match Resolved(a)
                               case None => None
                               case Some(x) => match Resolved(b) case None => None case Some(y) => Some(x + y)
    decreases |b|
  {
    hide Passing;
    if b == [] {
      assert a + b == a;
      if Resolved(a).Some? { assert Resolved(a).value + [] == Resolved(a).value; }
    } else {
      var n := |b| - 1;
      assert (a + b)[..|a + b| - 1] == a + b[..n] && (a + b)[|a + b| - 1] == b[n];
      ResolvedAppend(a, b[..n]);
      if Resolved(a).Some? && Resolved(b[..n]).Some? {
        SeqAssoc(Resolved(a).value, Resolved(b[..n]).value, [b[n]]);
      }
    }
  }

  /** A single service is kept if it passes; a port that is missing then throws. */
  lemma ResolvedOne(e: Entity)
    ensures Resolved([e]) == match Passing(e.checks)
                             case None => None
                             case Some(false) => Some([])
                             case Some(true) => if e.wsPort.None? then None else Some([e])
  {
    hide Passing;
    assert [e][..0] == [];
    assert Resolved([]) == Some([]);
    assert [] + [e] == [e];
  }

  /** Looking at the service throws. */
  predicate Throws(e: Entity) {
    Passing(e.checks) == None || (Passing(e.checks) == Some(true) && e.wsPort.None?)
  }

  /** Resolving throws if and only if some service does; else it keeps exactly those with a
      passing check. */
  lemma {:induction false} ResolvedIff(param: seq<Entity>)
    ensures Resolved(param).None? <==> exists e :: e in param && Throws(e)
    ensures Resolved(param).Some? ==>
              forall e :: e in Resolved(param).value <==> e in param && Some("passing") in e.checks
    ensures Resolved(param).Some? ==> forall e :: e in Resolved(param).value ==> e.wsPort.Some?
    decreases |param|
  {
    hide Passing;
    if param != [] {
      var e, before := param[|param| - 1], param[..|param| - 1];
      ResolvedIff(before);
      PassingIff(e.checks);
      assert param == before + [e];
      assert e in param && forall d :: d in param <==> d in before || d == e;
      assert Resolved(param).None? <==> Resolved(before).None? || Throws(e);
      if Resolved(before).None? {
        var d :| d in before && Throws(d);
        assert d in param;
      }
      if Passing(e.checks) == Some(true) {
        var i: nat :| PassesAt(e.checks, i);
        assert Some("passing") in e.checks;
      }
    }
  }

  /** The ids of the services that pass. */
  function PassingIds(param: seq<Entity>): Option<seq<string>> {
    match Resolved(param)
    case None => None
    case Some(es) => Some(seq(|es|, i requires 0 <= i < |es| => es[i].id))
  }

  /** An id is among them if and only if a service of that id has a passing check. */
  lemma PassingIdsIff(param: seq<Entity>, k: string)
    requires PassingIds(param).Some?
    ensures k in PassingIds(param).value <==> exists e :: e in param && e.id == k && Some("passing") in e.checks
  {
    hide Resolved;
    ResolvedIff(param);
    var es, ids := Resolved(param).value, PassingIds(param).value;
    if k in ids {
      var i :| 0 <= i < |ids| && ids[i] == k;
      assert es[i] in es;
    }
    if e :| e in param && e.id == k && Some("passing") in e.checks {
      var i :| 0 <= i < |es| && es[i] == e;
      assert ids[i] == k;
    }
  }

  lemma {:induction false} ResolvedPrefix(param: seq<Entity>, i: nat)
    requires i <= |param| && Resolved(param[..i]) == None
    ensures Resolved(param) == None
    decreases |param|
  {
    if i < |param| {
      assert param[..|param| - 1][..i] == param[..i];
      ResolvedPrefix(param[..|param| - 1], i);
    } else {
      assert param[..i] == param;
    }
  }

  method HasPassing(checks: seq<Option<string>>) returns (r: Option<bool>)
    ensures r == Passing(checks)
  {
    SuffixAll(checks);
    for i := 0 to |checks|
      invariant Passing(Suffix(checks, i)) == Passing(checks)
    {
      SuffixNext(checks, i);
      if checks[i].None? { return None; }
      if checks[i].value == "passing" { return Some(true); }
    }
    r := Some(false);
  }

  function Ids(nodes: seq<ConnectNodeLoad>): seq<string> {
    seq(|nodes|, i requires 0 <= i < |nodes| => nodes[i].id)
  }

  /** The node is a new one for the service. */
  ghost predicate Represents(n: ConnectNodeLoad, e: Entity) {
    n.id == e.id && n.ip == e.address && n.port == e.port && Some(n.wsPort) == e.wsPort
  }

  /** resolveServiceNotify: a new node with load 0 for each passing service, in order. A missing
      notification is an empty one. */
  method ResolveServiceNotify(param: seq<Entity>) returns (r: Option<seq<ConnectNodeLoad>>)
    ensures r.Some? <==> Resolved(param).Some?
    ensures r.Some? ==> |r.value| == |Resolved(param).value|
    ensures r.Some? ==> forall i :: 0 <= i < |r.value| ==> Represents(r.value[i], Resolved(param).value[i])
    ensures r.Some? ==> forall n :: n in r.value ==> fresh(n) && n.load == 0
  {
    var nodes: seq<ConnectNodeLoad> := [];
    assert param[..0] == [];
    for i := 0 to |param|
      invariant Resolved(param[..i]).Some? && |nodes| == |Resolved(param[..i]).value|
      invariant forall k :: 0 <= k < |nodes| ==> Represents(nodes[k], Resolved(param[..i]).value[k])
      invariant forall n :: n in nodes ==> fresh(n) && n.load == 0
    {
      var e := param[i];
      assert param[..i + 1][..i] == param[..i];
      var p := HasPassing(e.checks);
      if p.None? {
        ResolvedPrefix(param, i + 1);
        return None;
      }
      if p.value {
        if e.wsPort.None? {
          ResolvedPrefix(param, i + 1);
          return None;
        }
        var n := new ConnectNodeLoad(e.id, e.address, e.port, e.wsPort.value, 0);
        nodes := nodes + [n];
      }
    }
    assert param[..|param|] == param;
    r := Some(nodes);
  }

  /** The state after a notification: the passing nodes, known ones with the load they had. */
  function Reconciled(s: State, ids: seq<string>): State {
    s.(loads := map k | k in ids :: if k in s.loads then s.loads[k] else 0)
  }

  /** A second notification with the same services changes nothing. */
  lemma ReconciledTwice(s: State, ids: seq<string>, again: seq<string>)
    requires forall k :: k in ids <==> k in again
    ensures Reconciled(Reconciled(s, ids), again) == Reconciled(s, ids)
  {
    assert Reconciled(Reconciled(s, ids), again).loads == Reconciled(s, ids).loads;
  }

  /** Loads stay right if and only if no node goes offline that still has users. */
  lemma ReconciledConserves(s: State, ids: seq<string>)
    requires Conserved(s)
    ensures Conserved(Reconciled(s, ids)) <==> forall x :: x in s.loads && x !in ids ==> Users(s, x) == 0
  {
    var t := Reconciled(s, ids);
    SameUsers(s, t);
    if Conserved(t) {
      forall x | x in s.loads && x !in ids ensures Users(s, x) == 0 {
        assert x !in t.loads;
      }
    }
  }

  /** The available nodes, in any order, that are not among the given ones. */
  method FindOffline(available: map<string, ConnectNodeLoad>, nodes: seq<ConnectNodeLoad>) returns (r: seq<ConnectNodeLoad>)
    requires forall k :: k in available ==> available[k].id == k
    ensures forall n :: n in r <==> n.id in available && available[n.id] == n && n.id !in Ids(nodes)
  {
    r := [];
    var keys := available.Keys;
    while keys != {}
      invariant keys <= available.Keys
      invariant forall n :: n in r <==> n.id in available && available[n.id] == n && n.id !in keys && n.id !in Ids(nodes)
      decreases |keys|
    {
      var k :| k in keys;
      if k !in Ids(nodes) { r := r + [available[k]]; }
      keys := keys - {k};
    }
  }

  /** removeAll: the nodes whose ids are not among the given ones, in order. */
  function Without(nodes: seq<ConnectNodeLoad>, ids: set<string>): seq<ConnectNodeLoad> {
    if nodes == [] then []
    else
      var n := nodes[|nodes| - 1];
      Without(nodes[..|nodes| - 1], ids) + if n.id in ids then [] else [n]
  }

  lemma {:induction false} WithoutIs(nodes: seq<ConnectNodeLoad>, ids: set<string>)
    ensures forall n :: n in Without(nodes, ids) <==> n in nodes && n.id !in ids
    decreases |nodes|
  {
    if nodes != [] {
      WithoutIs(nodes[..|nodes| - 1], ids);
      assert nodes == nodes[..|nodes| - 1] + [nodes[|nodes| - 1]];
    }
  }

  /** The nodes that stay keep their order. */
  lemma {:induction false} WithoutAppend(a: seq<ConnectNodeLoad>, b: seq<ConnectNodeLoad>, ids: set<string>)
    ensures Without(a + b, ids) == Without(a, ids) + Without(b, ids)
    ensures forall n: ConnectNodeLoad :: Without([n], ids) == if n.id in ids then [] else [n]
    decreases |b|
  {
    forall n: ConnectNodeLoad ensures Without([n], ids) == if n.id in ids then [] else [n] {
      assert [n][..0] == [];
      assert Without([n][..0], ids) == [];
    }
    if b == [] {
      assert a + b == a;
      assert Without(a, ids) + [] == Without(a, ids);
    } else {
      var k := |b| - 1;
      assert (a + b)[..|a + b| - 1] == a + b[..k] && (a + b)[|a + b| - 1] == b[k];
      WithoutAppend(a, b[..k], ids);
      SeqAssoc(Without(a, ids), Without(b[..k], ids), if b[k].id in ids then [] else [b[k]]);
    }
  }

  method FindOnline(available: map<string, ConnectNodeLoad>, nodes: seq<ConnectNodeLoad>) returns (r: seq<ConnectNodeLoad>)
    ensures r == Without(nodes, available.Keys)
    ensures forall n :: n in r <==> n in nodes && n.id !in available
  {
    r := [];
    assert nodes[..0] == [];
    for i := 0 to |nodes|
      invariant r == Without(nodes[..i], available.Keys)
    {
      assert nodes[..i + 1][..i] == nodes[..i];
      if nodes[i].id !in available { r := r + [nodes[i]]; }
    }
    assert nodes[..|nodes|] == nodes;
    WithoutIs(nodes, available.Keys);
  }

  /** Makes the available nodes the passing ones; nothing changes when resolving throws. */
  method HandlerServiceNotify(service: ConnectNodeLoadServiceImpl, param: seq<Entity>) returns (ok: bool)
    requires service.Valid()
    modifies service`availableNodes
    ensures service.Valid() && ok == PassingIds(param).Some?
    ensures !ok ==> service.availableNodes == old(service.availableNodes)
    ensures ok ==> service.Abs() == Reconciled(old(service.Abs()), PassingIds(param).value)
    ensures ok ==> forall k :: k in old(service.availableNodes) && k in PassingIds(param).value ==>
              k in service.availableNodes && service.availableNodes[k] == old(service.availableNodes[k])
    ensures ok ==> forall k :: k in service.availableNodes && k !in old(service.availableNodes) ==>
              exists e :: e in Resolved(param).value && Represents(service.availableNodes[k], e)
  {
    hide Resolved, Reconciled, Ids, Represents, PassingIds;
    ghost var before := service.Abs();
    var nodes := ResolveServiceNotify(param);
    PassingNone(param);
    if nodes.None? { return false; }
    NodeIds(nodes.value, param);
    NodeServices(nodes.value, Resolved(param).value);
    Replace(service, nodes.value);
    AbsIs(service, before, Ids(nodes.value));
    ok := true;
  }

  /** Stops the offline nodes and starts the online ones. */
  method Replace(service: ConnectNodeLoadServiceImpl, nodes: seq<ConnectNodeLoad>)
    requires service.Valid()
    modifies service`availableNodes
    ensures service.Valid()
    ensures forall k :: k in service.availableNodes <==> k in Ids(nodes)
    ensures forall k :: k in service.availableNodes ==>
              if k in old(service.availableNodes) then service.availableNodes[k] == old(service.availableNodes)[k]
              else service.availableNodes[k] in nodes
  {
    hide Ids;
    var available := service.availableNodes;
    var offline := FindOffline(available, nodes);
    var online := FindOnline(available, nodes);
    StopAll(service, offline);
    ghost var kept := service.availableNodes;
    KeptNodes(available, kept, offline, nodes);
    StartAll(service, online);
    AllNodes(available, kept, online, nodes, service.availableNodes);
  }

  lemma PassingNone(param: seq<Entity>)
    ensures PassingIds(param).Some? <==> Resolved(param).Some?
  {
    hide Resolved;
  }

  lemma AbsIs(service: ConnectNodeLoadServiceImpl, before: State, ids: seq<string>)
    requires forall k :: k in service.availableNodes <==> k in ids
    requires forall k :: k in service.availableNodes ==>
               service.availableNodes[k].load == if k in before.loads then before.loads[k] else 0
    requires service.channelNodeMap == before.lists
    ensures service.Abs() == Reconciled(before, ids)
  {
    assert service.Abs().loads == Reconciled(before, ids).loads;
  }

  lemma NodeIds(nodes: seq<ConnectNodeLoad>, param: seq<Entity>)
    requires Resolved(param).Some? && |nodes| == |Resolved(param).value|
    requires forall i :: 0 <= i < |nodes| ==> Represents(nodes[i], Resolved(param).value[i])
    ensures PassingIds(param) == Some(Ids(nodes))
  {
    assert Ids(nodes) == PassingIds(param).value;
  }

  lemma NodeServices(nodes: seq<ConnectNodeLoad>, es: seq<Entity>)
    requires |nodes| == |es| && forall i :: 0 <= i < |nodes| ==> Represents(nodes[i], es[i])
    ensures forall n :: n in nodes ==> exists e :: e in es && Represents(n, e)
  {
    forall n | n in nodes ensures exists e :: e in es && Represents(n, e) {
      var i :| 0 <= i < |nodes| && nodes[i] == n;
      assert es[i] in es;
    }
  }

  /** offlineList.forEach(stop) */
  method StopAll(service: ConnectNodeLoadServiceImpl, nodes: seq<ConnectNodeLoad>)
    requires service.Valid()
    modifies service`availableNodes
    ensures service.Valid()
    ensures forall k :: k in service.availableNodes <==>
              k in old(service.availableNodes) && forall j :: 0 <= j < |nodes| ==> nodes[j].id != k
    ensures forall k :: k in service.availableNodes ==> service.availableNodes[k] == old(service.availableNodes)[k]
  {
    for i := 0 to |nodes|
      invariant service.Valid()
      invariant forall k :: k in service.availableNodes <==>
                  k in old(service.availableNodes) && forall j :: 0 <= j < i ==> nodes[j].id != k
      invariant forall k :: k in service.availableNodes ==> service.availableNodes[k] == old(service.availableNodes)[k]
    {
      service.Stop(nodes[i]);
    }
  }

  /** onlineList.forEach(start) */
  method StartAll(service: ConnectNodeLoadServiceImpl, nodes: seq<ConnectNodeLoad>)
    requires service.Valid()
    modifies service`availableNodes
    ensures service.Valid()
    ensures forall k :: k in service.availableNodes <==>
              k in old(service.availableNodes) || exists j :: 0 <= j < |nodes| && nodes[j].id == k
    ensures forall k :: k in service.availableNodes ==>
              service.availableNodes[k] in nodes
              || (k in old(service.availableNodes) && service.availableNodes[k] == old(service.availableNodes)[k])
  {
    for i := 0 to |nodes|
      invariant service.Valid()
      invariant forall k :: k in service.availableNodes <==>
                  k in old(service.availableNodes) || exists j :: 0 <= j < i && nodes[j].id == k
      invariant forall k :: k in service.availableNodes ==>
                  service.availableNodes[k] in nodes
                  || (k in old(service.availableNodes) && service.availableNodes[k] == old(service.availableNodes)[k])
    {
      service.Start(nodes[i]);
    }
  }

  lemma InIds(nodes: seq<ConnectNodeLoad>, k: string)
    ensures k in Ids(nodes) <==> exists n :: n in nodes && n.id == k
  {
    if k in Ids(nodes) {
      var i :| 0 <= i < |nodes| && Ids(nodes)[i] == k;
      assert nodes[i] in nodes;
    }
    if n :| n in nodes && n.id == k {
      var i :| 0 <= i < |nodes| && nodes[i] == n;
      assert Ids(nodes)[i] == k;
    }
  }

  /** After the stops. */
  lemma KeptNodes(available: map<string, ConnectNodeLoad>, kept: map<string, ConnectNodeLoad>,
                  offline: seq<ConnectNodeLoad>, nodes: seq<ConnectNodeLoad>)
    requires forall k :: k in available ==> available[k].id == k
    requires forall n :: n in offline <==> n.id in available && available[n.id] == n && n.id !in Ids(nodes)
    requires forall k :: k in kept <==> k in available && forall j :: 0 <= j < |offline| ==> offline[j].id != k
    ensures forall k :: k in kept <==> k in available && k in Ids(nodes)
  {
    forall k | k in available ensures k in Ids(nodes) <==> forall j :: 0 <= j < |offline| ==> offline[j].id != k {
      if k !in Ids(nodes) {
        assert available[k] in offline;
      } else {
        forall j | 0 <= j < |offline| ensures offline[j].id != k { assert offline[j] in offline; }
      }
    }
  }

  /** After the starts. */
  lemma AllNodes(available: map<string, ConnectNodeLoad>, kept: map<string, ConnectNodeLoad>,
                 online: seq<ConnectNodeLoad>, nodes: seq<ConnectNodeLoad>, now: map<string, ConnectNodeLoad>)
    requires forall k :: k in kept <==> k in available && k in Ids(nodes)
    requires forall n :: n in online <==> n in nodes && n.id !in available
    requires forall k :: k in now <==> k in kept || exists j :: 0 <= j < |online| && online[j].id == k
    requires forall k :: k in now ==> now[k].id == k && (now[k] in online || (k in kept && now[k] == kept[k]))
    ensures forall k :: k in now <==> k in Ids(nodes)
    ensures forall k :: k in now && k in available ==> k in kept && now[k] == kept[k]
    ensures forall k :: k in now && k !in available ==> now[k] in nodes
  {
    forall k ensures k in now <==> k in Ids(nodes) {
      InIds(nodes, k);
      if k in Ids(nodes) && k !in available {
        var n :| n in nodes && n.id == k;
        assert n in online;
        var j :| 0 <= j < |online| && online[j] == n;
      }
      if j :| 0 <= j < |online| && online[j].id == k {
        assert online[j] in online;
      }
    }
  }
}