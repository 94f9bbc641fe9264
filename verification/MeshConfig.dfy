/** What a topology must satisfy before anything is rendered from it. */
module MeshConfig {
  import opened Lists
  import opened Topologies
  import opened Wrappers

  datatype Problem =
    | NoNodes
    | EmptyNodeName
    | DuplicateNode(node: string)
    | BadNodeId(node: string)
    | DuplicateNodeId(node: string)
    | UnknownNode(node: string)
    | SelfLink(node: string)
    | PortTwice(node: string, port: nat)
    | DuplicatePool(pool: string)
    | PoolWithoutNodes(pool: string)
    | DuplicateClient(pool: string)

  /** A port that a link or pool listens on at a node. */
  datatype Claim = Claim(node: string, port: nat)

  ghost predicate Twice<T(!new)>(s: seq<T>, x: T) {
    exists i, j :: 0 <= i < j < |s| && s[i] == x && s[j] == x
  }

  function Names(nodes: seq<Node>): seq<string> {
    seq(|nodes|, i requires 0 <= i < |nodes| => nodes[i].name)
  }

  function NodeIds(nodes: seq<Node>): seq<Option<bv32>> {
    seq(|nodes|, i requires 0 <= i < |nodes| => nodes[i].nodeId)
  }

  function PoolNames(pools: seq<Pool>): seq<string> {
    seq(|pools|, i requires 0 <= i < |pools| => pools[i].name)
  }

  function ClientKeys(clients: seq<Client>): seq<string> {
    seq(|clients|, i requires 0 <= i < |clients| => clients[i].publicKey)
  }

  function LinkClaims(links: seq<Link>): seq<Claim> {
    if links == [] then []
    else
      var last := links[|links| - 1];
      LinkClaims(links[..|links| - 1]) + [Claim(last.one, last.port), Claim(last.other, last.port)]
  }

  function HostClaims(hosts: seq<string>, port: nat): seq<Claim> {
    seq(|hosts|, i requires 0 <= i < |hosts| => Claim(hosts[i], port))
  }

  function PoolClaims(pools: seq<Pool>): seq<Claim> {
    if pools == [] then []
    else
      var last := pools[|pools| - 1];
      PoolClaims(pools[..|pools| - 1]) + HostClaims(last.nodes, last.listenPort)
  }

  function Claims(t: Topology): seq<Claim> {
    LinkClaims(t.links) + PoolClaims(t.pools)
  }

  ghost predicate ValidNodes(nodes: seq<Node>) {
    && nodes != []
    && (forall i :: 0 <= i < |nodes| ==> nodes[i].name != "" && nodes[i].nodeId.Some?)
    && NoDuplicates(Names(nodes))
    && NoDuplicates(NodeIds(nodes))
  }

  ghost predicate ValidLinks(links: seq<Link>, known: seq<string>) {
    forall i :: 0 <= i < |links| ==> links[i].one in known && links[i].other in known && links[i].one != links[i].other
  }

  ghost predicate ValidPool(pool: Pool, known: seq<string>) {
    && pool.nodes != []
    && (forall i :: 0 <= i < |pool.nodes| ==> pool.nodes[i] in known)
    && NoDuplicates(ClientKeys(pool.clients))
  }

  ghost predicate ValidPools(pools: seq<Pool>, known: seq<string>) {
    NoDuplicates(PoolNames(pools)) && forall i :: 0 <= i < |pools| ==> ValidPool(pools[i], known)
  }

  /** No two nodes share a name or an identity, every reference is to a node, no link joins a node to
      itself, and no node listens twice on one port. */
  ghost predicate Valid(t: Topology) {
    var known := Names(t.nodes);
    && ValidNodes(t.nodes)
    && ValidLinks(t.links, known)
    && ValidPools(t.pools, known)
    && NoDuplicates(Claims(t))
    && forall i :: 0 <= i < |t.bypass| ==> t.bypass[i] in known
  }

  /** What a reported problem says of the topology. */
  ghost predicate Has(t: Topology, problem: Problem) {
    match problem
    case NoNodes => t.nodes == []
    case EmptyNodeName => "" in Names(t.nodes)
    case DuplicateNode(node) => Twice(Names(t.nodes), node)
    case BadNodeId(node) => exists i :: 0 <= i < |t.nodes| && t.nodes[i].name == node && t.nodes[i].nodeId.None?
    case DuplicateNodeId(node) =>
      exists i :: 0 <= i < |t.nodes| && t.nodes[i].name == node && t.nodes[i].nodeId in NodeIds(t.nodes)[..i]
    case UnknownNode(node) => node !in Names(t.nodes) && Mentions(t, node)
    case SelfLink(node) => exists i :: 0 <= i < |t.links| && t.links[i].one == node && t.links[i].other == node
    case PortTwice(node, port) => Twice(Claims(t), Claim(node, port))
    case DuplicatePool(pool) => Twice(PoolNames(t.pools), pool)
    case PoolWithoutNodes(pool) => exists i :: 0 <= i < |t.pools| && t.pools[i].name == pool && t.pools[i].nodes == []
    case DuplicateClient(pool) =>
      exists i :: 0 <= i < |t.pools| && t.pools[i].name == pool && !NoDuplicates(ClientKeys(t.pools[i].clients))
  }

  ghost predicate Mentions(t: Topology, node: string) {
    || (exists i :: 0 <= i < |t.links| && (t.links[i].one == node || t.links[i].other == node))
    || (exists i :: 0 <= i < |t.pools| && node in t.pools[i].nodes)
    || node in t.bypass
  }

  // ---- Growing lists without duplicates ----

  lemma PushDistinct<T(!new)>(s: seq<T>, x: T)
    ensures NoDuplicates(s + [x]) <==> NoDuplicates(s) && x !in s
    ensures x in s ==> Twice(s + [x], x)
  {
    var t := s + [x];
    assert forall i :: 0 <= i < |s| ==> t[i] == s[i];
    assert t[|s|] == x;
  }

  lemma PrefixDistinct<T(!new)>(s: seq<T>, t: seq<T>)
    ensures NoDuplicates(s + t) ==> NoDuplicates(s)
    ensures forall x :: Twice(s, x) ==> Twice(s + t, x)
  {
    assert forall i :: 0 <= i < |s| ==> (s + t)[i] == s[i];
  }

  lemma Taken<T(!new)>(s: seq<T>, i: nat)
    requires i < |s|
    ensures NoDuplicates(s[..i + 1]) <==> NoDuplicates(s[..i]) && s[i] !in s[..i]
    ensures s[i] in s[..i] ==> Twice(s, s[i])
    ensures forall x :: x in s[..i + 1] <==> x in s[..i] || x == s[i]
  {
    assert s[..i + 1] == s[..i] + [s[i]];
    PushDistinct(s[..i], s[i]);
    PrefixDistinct(s[..i + 1], s[i + 1..]);
    assert s == s[..i + 1] + s[i + 1..];
  }

  /** A topology with a problem is not valid. */
  lemma ProblemIsInvalid(t: Topology, problem: Problem)
    requires Has(t, problem)
    ensures !Valid(t)
  {
    match problem {
      case DuplicateNodeId(node) =>
        var i :| 0 <= i < |t.nodes| && t.nodes[i].name == node && t.nodes[i].nodeId in NodeIds(t.nodes)[..i];
        var j :| 0 <= j < i && NodeIds(t.nodes)[j] == t.nodes[i].nodeId;
        assert NodeIds(t.nodes)[i] == t.nodes[i].nodeId;
      case EmptyNodeName =>
        var i :| 0 <= i < |t.nodes| && Names(t.nodes)[i] == "";
      case _ =>
    }
  }

  // ---- Where claims are ----

  lemma {:induction false} LinkClaimAt(links: seq<Link>, i: nat)
    requires i < |links|
    ensures |LinkClaims(links)| == 2 * |links|
    ensures LinkClaims(links)[2 * i] == Claim(links[i].one, links[i].port)
    ensures LinkClaims(links)[2 * i + 1] == Claim(links[i].other, links[i].port)
  {
    if |links| == 1 {
    } else {
      LinkClaimAt(links[..|links| - 1], if i < |links| - 1 then i else 0);
    }
  }

  lemma {:induction false} PoolClaimsPrefix(pools: seq<Pool>, i: nat)
    requires i <= |pools|
    ensures PoolClaims(pools[..i]) <= PoolClaims(pools)
  {
    if i < |pools| {
      assert pools[..|pools| - 1][..i] == pools[..i];
      PoolClaimsPrefix(pools[..|pools| - 1], i);
    } else {
      assert pools[..i] == pools;
    }
  }

  lemma PoolClaimsStep(pools: seq<Pool>, i: nat)
    requires i < |pools|
    ensures |PoolClaims(pools[..i + 1])| == |PoolClaims(pools[..i])| + |pools[i].nodes|
    ensures |PoolClaims(pools[..i + 1])| <= |PoolClaims(pools)|
    ensures forall h :: 0 <= h < |pools[i].nodes| ==>
      PoolClaims(pools)[|PoolClaims(pools[..i])| + h] == Claim(pools[i].nodes[h], pools[i].listenPort)
  {
    PoolClaimsPrefix(pools, i + 1);
    assert pools[..i + 1][..i] == pools[..i];
    hide PoolClaims;
    PoolClaimsPush(pools[..i + 1]);
  }

  lemma PoolClaimsPush(pools: seq<Pool>)
    requires pools != []
    ensures PoolClaims(pools) ==
      PoolClaims(pools[..|pools| - 1]) + HostClaims(pools[|pools| - 1].nodes, pools[|pools| - 1].listenPort)
  {}

  // ---- Ports in use ----

  /** The ports each node listens on, as the validator keeps them. */
  type Ports = map<string, set<nat>>

  predicate InUse(ports: Ports, c: Claim) {
    c.node in ports && c.port in ports[c.node]
  }

  ghost predicate Records(ports: Ports, claims: seq<Claim>) {
    && NoDuplicates(claims)
    && forall c :: InUse(ports, c) <==> c in claims
  }

  /** Enters the next of all claims. */
  method Use(ports: Ports, c: Claim, ghost claims: seq<Claim>, ghost k: nat) returns (isNew: bool, used: Ports)
    requires k < |claims| && claims[k] == c && Records(ports, claims[..k])
    ensures isNew ==> Records(used, claims[..k + 1])
    ensures !isNew ==> Twice(claims, c)
  {
    hide NoDuplicates, Twice;
    assert InUse(ports, c) <==> c in claims[..k];
    Taken(claims, k);
    var mine := if c.node in ports then ports[c.node] else {};
    isNew := c.port !in mine;
    used := ports[c.node := mine + {c.port}];
    forall d ensures InUse(used, d) <==> InUse(ports, d) || d == c {
    }
  }

  // ---- The validator ----

  method ValidateNodes(nodes: seq<Node>) returns (problem: Option<Problem>, names: set<string>)
    ensures problem.None? ==> ValidNodes(nodes)
    ensures problem.None? ==> forall name :: name in names <==> name in Names(nodes)
    ensures forall t: Topology :: problem.Some? && t.nodes == nodes ==> Has(t, problem.value)
  {
    names := {};
    if nodes == [] {
      return Some(NoNodes), names;
    }
    var ids: set<Option<bv32>> := {};
    for i := 0 to |nodes|
      invariant forall j :: 0 <= j < i ==> nodes[j].name != "" && nodes[j].nodeId.Some?
      invariant NoDuplicates(Names(nodes)[..i]) && forall name :: name in names <==> name in Names(nodes)[..i]
      invariant NoDuplicates(NodeIds(nodes)[..i]) && forall id :: id in ids <==> id in NodeIds(nodes)[..i]
    {
      hide NoDuplicates, Twice;
      var node := nodes[i];
      Taken(Names(nodes), i);
      Taken(NodeIds(nodes), i);
      assert Names(nodes)[i] == node.name && NodeIds(nodes)[i] == node.nodeId;
      if node.name == "" {
        return Some(EmptyNodeName), names;
      }
      if node.name in names {
        return Some(DuplicateNode(node.name)), names;
      }
      names := names + {node.name};
      if node.nodeId.None? {
        return Some(BadNodeId(node.name)), names;
      }
      if node.nodeId in ids {
        return Some(DuplicateNodeId(node.name)), names;
      }
      ids := ids + {node.nodeId};
    }
    assert Names(nodes)[..|nodes|] == Names(nodes);
    assert NodeIds(nodes)[..|nodes|] == NodeIds(nodes);
    return None, names;
  }

  method ValidateLinks(t: Topology, names: set<string>) returns (problem: Option<Problem>, ports: Ports)
    requires forall name :: name in names <==> name in Names(t.nodes)
    ensures problem.None? ==> ValidLinks(t.links, Names(t.nodes))
    ensures problem.None? ==> Records(ports, LinkClaims(t.links))
    ensures problem.Some? ==> Has(t, problem.value)
  {
    hide NoDuplicates, Twice, Names, LinkClaims, PoolClaims, Records;
    ports := map[];
    ghost var claims := Claims(t);
    NothingInUse();
    LinkClaimsFirst(t);
    for i := 0 to |t.links|
      invariant ValidLinks(t.links[..i], Names(t.nodes))
      invariant Records(ports, claims[..2 * i])
    {
      var link := t.links[i];
      LinkClaimAt(t.links, i);
      if link.one !in names {
        return Some(UnknownNode(link.one)), ports;
      }
      if link.other !in names {
        return Some(UnknownNode(link.other)), ports;
      }
      if link.one == link.other {
        return Some(SelfLink(link.one)), ports;
      }
      var isNew, used := Use(ports, Claim(link.one, link.port), claims, 2 * i);
      if !isNew {
        return Some(PortTwice(link.one, link.port)), ports;
      }
      ports := used;
      isNew, used := Use(ports, Claim(link.other, link.port), claims, 2 * i + 1);
      if !isNew {
        return Some(PortTwice(link.other, link.port)), ports;
      }
      ports := used;
    }
    return None, ports;
  }

  lemma NothingInUse()
    ensures Records(map[], [])
  {}

  lemma LinkClaimsFirst(t: Topology)
    ensures |LinkClaims(t.links)| == 2 * |t.links|
    ensures Claims(t)[..2 * |t.links|] == LinkClaims(t.links)
  {
    if t.links != [] {
      LinkClaimAt(t.links, 0);
    }
  }

  lemma PoolClaimsLast(t: Topology)
    ensures |Claims(t)| == 2 * |t.links| + |PoolClaims(t.pools)|
    ensures forall k :: 0 <= k < |PoolClaims(t.pools)| ==> Claims(t)[2 * |t.links| + k] == PoolClaims(t.pools)[k]
    ensures PoolClaims([]) == []
  {
    hide LinkClaims;
    LinkClaimsFirst(t);
  }

  method ValidatePools(t: Topology, names: set<string>, portsOfLinks: Ports) returns (problem: Option<Problem>)
    requires forall name :: name in names <==> name in Names(t.nodes)
    requires Records(portsOfLinks, LinkClaims(t.links))
    ensures problem.None? ==> ValidPools(t.pools, Names(t.nodes)) && NoDuplicates(Claims(t))
    ensures problem.Some? ==> Has(t, problem.value)
  {
    hide NoDuplicates, Twice, Names, Claims, LinkClaims, PoolClaims, Records, ValidPool;
    var ports := portsOfLinks;
    var seen: set<string> := {};
    ghost var claims, links := Claims(t), 2 * |t.links|;
    LinkClaimsFirst(t);
    PoolClaimsLast(t);
    NoneTaken(PoolNames(t.pools));
    assert t.pools[..0] == [];
    for i := 0 to |t.pools|
      invariant forall j :: 0 <= j < i ==> ValidPool(t.pools[j], Names(t.nodes))
      invariant NoDuplicates(PoolNames(t.pools)[..i])
      invariant forall name :: name in seen <==> name in PoolNames(t.pools)[..i]
      invariant |PoolClaims(t.pools[..i])| <= |PoolClaims(t.pools)|
      invariant Records(ports, claims[..links + |PoolClaims(t.pools[..i])|])
    {
      var pool := t.pools[i];
      Taken(PoolNames(t.pools), i);
      assert PoolNames(t.pools)[i] == pool.name;
      if pool.name in seen {
        return Some(DuplicatePool(pool.name));
      }
      seen := seen + {pool.name};
      PoolClaimsStep(t.pools, i);
      problem, ports := ValidatePool(t, i, names, ports, links + |PoolClaims(t.pools[..i])|);
      if problem.Some? {
        return;
      }
    }
    assert t.pools[..|t.pools|] == t.pools;
    assert PoolNames(t.pools)[..|t.pools|] == PoolNames(t.pools);
    assert claims[..links + |PoolClaims(t.pools)|] == claims;
    RecordedAreDistinct(ports, claims);
    return None;
  }

  lemma NoneTaken<T(!new)>(s: seq<T>)
    ensures NoDuplicates(s[..0])
  {}

  lemma RecordedAreDistinct(ports: Ports, claims: seq<Claim>)
    ensures Records(ports, claims) ==> NoDuplicates(claims)
  {}

  method ValidatePool(t: Topology, i: nat, names: set<string>, portsBefore: Ports, ghost start: nat)
    returns (problem: Option<Problem>, ports: Ports)
    requires i < |t.pools| && forall name :: name in names <==> name in Names(t.nodes)
    requires start + |t.pools[i].nodes| <= |Claims(t)|
    requires forall h :: 0 <= h < |t.pools[i].nodes| ==>
      Claims(t)[start + h] == Claim(t.pools[i].nodes[h], t.pools[i].listenPort)
    requires Records(portsBefore, Claims(t)[..start])
    ensures problem.None? ==> ValidPool(t.pools[i], Names(t.nodes))
    ensures problem.None? ==> Records(ports, Claims(t)[..start + |t.pools[i].nodes|])
    ensures problem.Some? ==> Has(t, problem.value)
  {
    hide NoDuplicates, Twice, Names, Claims, Records;
    var pool := t.pools[i];
    ports := portsBefore;
    if pool.nodes == [] {
      return Some(PoolWithoutNodes(pool.name)), ports;
    }
    for h := 0 to |pool.nodes|
      invariant forall g :: 0 <= g < h ==> pool.nodes[g] in Names(t.nodes)
      invariant Records(ports, Claims(t)[..start + h])
    {
      if pool.nodes[h] !in names {
        return Some(UnknownNode(pool.nodes[h])), ports;
      }
      var isNew, used := Use(ports, Claim(pool.nodes[h], pool.listenPort), Claims(t), start + h);
      if !isNew {
        return Some(PortTwice(pool.nodes[h], pool.listenPort)), ports;
      }
      ports := used;
    }
    var distinct := DistinctClients(pool.clients);
    if !distinct {
      return Some(DuplicateClient(pool.name)), ports;
    }
    return None, ports;
  }

  method DistinctClients(clients: seq<Client>) returns (distinct: bool)
    ensures distinct <==> NoDuplicates(ClientKeys(clients))
  {
    var seen: set<string> := {};
    for i := 0 to |clients|
      invariant NoDuplicates(ClientKeys(clients)[..i])
      invariant forall key :: key in seen <==> key in ClientKeys(clients)[..i]
    {
      Taken(ClientKeys(clients), i);
      assert ClientKeys(clients)[i] == clients[i].publicKey;
      if clients[i].publicKey in seen {
        return false;
      }
      seen := seen + {clients[i].publicKey};
    }
    assert ClientKeys(clients)[..|clients|] == ClientKeys(clients);
    return true;
  }

  /** Accepts exactly the valid topologies, and what it reports of another is true. */
  method Validate(t: Topology) returns (problem: Option<Problem>)
    ensures problem.None? <==> Valid(t)
    ensures problem.Some? ==> Has(t, problem.value)
  {
    hide ValidNodes, ValidLinks, ValidPools, NoDuplicates, Twice, Names, Claims, LinkClaims;
    var names: set<string>;
    problem, names := ValidateNodes(t.nodes);
    if problem.Some? {
      ProblemIsInvalid(t, problem.value);
      return;
    }
    var ports: Ports;
    problem, ports := ValidateLinks(t, names);
    if problem.Some? {
      ProblemIsInvalid(t, problem.value);
      return;
    }
    problem := ValidatePools(t, names, ports);
    if problem.Some? {
      ProblemIsInvalid(t, problem.value);
      return;
    }
    for i := 0 to |t.bypass|
      invariant forall j :: 0 <= j < i ==> t.bypass[j] in Names(t.nodes)
    {
      if t.bypass[i] !in names {
        return Some(UnknownNode(t.bypass[i]));
      }
    }
  }
}
