/** One node's tunnel interfaces and BGP peers, rendered from the topology and its secrets. */
module Render {
  import opened Addressing
  import opened Cidrs
  import opened Lists
  import opened MeshConfig
  import opened Secrets
  import opened Topologies
  import opened Wrappers

  datatype Networks = Networks(v4: bv32, len4: PrefixLen, v6: bv128, len6: Prefix6Len)

  datatype Tunnels = NoTunnels | BadTunnels | TunnelNetworks(networks: Networks)

  /** The cluster's address plan as parsed; `None` and `BadTunnels` stand for texts that do not parse. */
  datatype Cluster = Cluster(loopbacks: Option<Networks>, tunnels: Tunnels)

  datatype Loopbacks = Loopbacks(v4: bv32, v6: bv128)

  datatype Address = V6(address6: bv128, len6: nat) | V4(address4: bv32, len4: nat) | Written(text: string)

  datatype Endpoint = Endpoint(host: string, port: nat)

  datatype PeerEntry = PeerEntry(
    publicKey: string,
    name: string,
    endpoint: Option<Endpoint>,
    allowedIps: Option<seq<string>>,
    advancedSecurity: bool)

  datatype InterfaceEntry = InterfaceEntry(
    name: string,
    listenPort: nat,
    addresses: seq<Address>,
    privateKey: string,
    obfuscation: Obfuscation,
    peers: seq<PeerEntry>)

  datatype BgpPeer = BgpPeer(name: string, address: bv128)

  /** The public key of a private key; `None` for a text that is no key. */
  type Derive = string -> Option<string>

  // ---- Addresses ----

  function FindNode(nodes: seq<Node>, name: string): (r: Option<Node>)
    ensures r.Some? ==> r.value in nodes && r.value.name == name
    ensures r.None? ==> forall node :: node in nodes ==> node.name != name
  {
    if nodes == [] then None
    else if nodes[0].name == name then Some(nodes[0])
    else FindNode(nodes[1..], name)
  }

  function NodeIdOf(nodes: seq<Node>, name: string): Option<bv32> {
    var node := FindNode(nodes, name);
    if node.Some? then node.value.nodeId else None
  }

  function Derived(networks: Networks, id: bv32): Loopbacks {
    Loopbacks(Ipv4Loopback(networks.v4, networks.len4, id), Ipv6Loopback(networks.v6, networks.len6, id))
  }

  function NodeLoopbacks(t: Topology, c: Cluster, node: string): Option<Loopbacks> {
    var id := NodeIdOf(t.nodes, node);
    if c.loopbacks.None? || id.None? then None else Some(Derived(c.loopbacks.value, id.value))
  }

  /** An error, or the node's tunnel addresses where the cluster has any. */
  function NodeTunnelAddresses(t: Topology, c: Cluster, node: string): Option<Option<Loopbacks>> {
    match c.tunnels
    case NoTunnels => Some(None)
    case BadTunnels => None
    case TunnelNetworks(networks) =>
      var id := NodeIdOf(t.nodes, node);
      if id.None? then None else Some(Some(Derived(networks, id.value)))
  }

  /** The addresses of a node's mesh interfaces: the tunnel's own where there is one, else the link-local
      address of the loopback. */
  function MeshAddresses(t: Topology, c: Cluster, node: string): Option<seq<Address>> {
    var loopbacks := NodeLoopbacks(t, c, node);
    var tunnel := NodeTunnelAddresses(t, c, node);
    if loopbacks.None? || tunnel.None? then None
    else if tunnel.value.Some? then Some([V6(tunnel.value.value.v6, 64), V4(tunnel.value.value.v4, 32)])
    else Some([V6(LinkLocalFromLoopback(loopbacks.value.v6), 64)])
  }

  // ---- Mesh interfaces ----

  function PeerOf(link: Link, node: string): Option<string> {
    if link.one == node then Some(link.other)
    else if link.other == node then Some(link.one)
    else None
  }

  function EndpointOf(node: Node, port: nat): Option<Endpoint> {
    if node.endpoint.Some? then Some(Endpoint(node.endpoint.value, port)) else None
  }

  /** A node's end of one of its links. */
  function MeshEntry(t: Topology, addresses: seq<Address>, ownKey: string, link: Link, peer: string,
                     s: ResolvedSecrets, derive: Derive)
    : Option<InterfaceEntry>
  {
    var node := FindNode(t.nodes, peer);
    if node.None? || peer !in s.nodeKeys then None
    else
      var publicKey := derive(s.nodeKeys[peer]);
      var key := LinkKey(link.one, link.other);
      if publicKey.None? then None
      else
        Some(InterfaceEntry(
          "mesh-" + peer,
          link.port,
          addresses,
          ownKey,
          if key in s.linkObfuscation then s.linkObfuscation[key] else map[],
          [PeerEntry(
            publicKey.value,
            peer,
            EndpointOf(node.value, link.port),
            None,
            false)]))
  }

  function MeshEntries(t: Topology, addresses: seq<Address>, ownKey: string, links: seq<Link>, node: string,
                       s: ResolvedSecrets, derive: Derive)
    : Option<seq<InterfaceEntry>>
  {
    if links == [] then Some([])
    else
      var front := MeshEntries(t, addresses, ownKey, links[..|links| - 1], node, s, derive);
      var peer := PeerOf(links[|links| - 1], node);
      if front.None? || peer.None? then front
      else
        var entry := MeshEntry(t, addresses, ownKey, links[|links| - 1], peer.value, s, derive);
        if entry.None? then None else Some(front.value + [entry.value])
  }

  function MeshInterfaces(t: Topology, c: Cluster, node: string, s: ResolvedSecrets, derive: Derive)
    : Option<seq<InterfaceEntry>>
  {
    var addresses := MeshAddresses(t, c, node);
    if addresses.None? || node !in s.nodeKeys then None
    else MeshEntries(t, addresses.value, s.nodeKeys[node], t.links, node, s, derive)
  }

  method MeshInterfacesFor(t: Topology, c: Cluster, node: string, s: ResolvedSecrets, derive: Derive)
    returns (out: Option<seq<InterfaceEntry>>)
    ensures out == MeshInterfaces(t, c, node, s, derive)
  {
    hide MeshEntry, MeshAddresses;
    var addresses := MeshAddresses(t, c, node);
    if addresses.None? || node !in s.nodeKeys {
      return None;
    }
    var ownKey := s.nodeKeys[node];
    var entries: seq<InterfaceEntry> := [];
    for i := 0 to |t.links|
      invariant MeshEntries(t, addresses.value, ownKey, t.links[..i], node, s, derive) == Some(entries)
    {
      assert t.links[..i + 1][..i] == t.links[..i];
      var peer := PeerOf(t.links[i], node);
      if peer.None? {
        continue;
      }
      var entry := MeshEntry(t, addresses.value, ownKey, t.links[i], peer.value, s, derive);
      if entry.None? {
        FailsOn(t, addresses.value, ownKey, t.links, i + 1, node, s, derive);
        return None;
      }
      entries := entries + [entry.value];
    }
    assert t.links[..|t.links|] == t.links;
    return Some(entries);
  }

  lemma {:induction false} FailsOn(t: Topology, addresses: seq<Address>, ownKey: string, links: seq<Link>, i: nat,
                                   node: string, s: ResolvedSecrets, derive: Derive)
    requires i <= |links| && MeshEntries(t, addresses, ownKey, links[..i], node, s, derive).None?
    ensures MeshEntries(t, addresses, ownKey, links, node, s, derive).None?
  {
    hide MeshEntry, PeerOf;
    if i < |links| {
      assert links[..|links| - 1][..i] == links[..i];
      FailsOn(t, addresses, ownKey, links[..|links| - 1], i, node, s, derive);
    } else {
      assert links[..i] == links;
    }
  }

  // ---- Pool interfaces ----

  function ClientEntries(clients: seq<Client>): seq<PeerEntry> {
    seq(|clients|, i requires 0 <= i < |clients| =>
      PeerEntry(clients[i].publicKey, clients[i].name, None, Some(clients[i].allowedIps), clients[i].advancedSecurity))
  }

  function AsWritten(texts: seq<string>): seq<Address> {
    seq(|texts|, i requires 0 <= i < |texts| => Written(texts[i]))
  }

  function PoolEntry(pool: Pool, s: ResolvedSecrets): InterfaceEntry {
    InterfaceEntry(
      "rw-" + pool.name,
      pool.listenPort,
      AsWritten(pool.addresses),
      if pool.name in s.poolKeys then s.poolKeys[pool.name] else "",
      if pool.name in s.poolObfuscation then s.poolObfuscation[pool.name] else map[],
      ClientEntries(pool.clients))
  }

  function PoolEntries(pools: seq<Pool>, node: string, s: ResolvedSecrets): seq<InterfaceEntry> {
    if pools == [] then []
    else
      var last := pools[|pools| - 1];
      var front := PoolEntries(pools[..|pools| - 1], node, s);
      if node in last.nodes then front + [PoolEntry(last, s)] else front
  }

  /** All tunnel interfaces of a node, or an error. */
  function AwgInterfaces(t: Topology, c: Cluster, node: string, s: ResolvedSecrets, derive: Derive)
    : Option<seq<InterfaceEntry>>
  {
    var mesh := MeshInterfaces(t, c, node, s, derive);
    if mesh.None? then None else Some(mesh.value + PoolEntries(t.pools, node, s))
  }

  lemma PoolEntryIs(pool: Pool, s: ResolvedSecrets)
    ensures PoolEntry(pool, s).name == "rw-" + pool.name
    ensures |PoolEntry(pool, s).name| >= 3 && PoolEntry(pool, s).name[..3] == "rw-"
      && PoolEntry(pool, s).name[3..] == pool.name
    ensures PoolEntry(pool, s).listenPort == pool.listenPort
  {}

  // ---- No port twice ----

  function ListenPorts(entries: seq<InterfaceEntry>): seq<nat> {
    seq(|entries|, i requires 0 <= i < |entries| => entries[i].listenPort)
  }

  ghost predicate ClaimedBy(entries: seq<InterfaceEntry>, node: string, claims: seq<Claim>) {
    forall port :: port in ListenPorts(entries) ==> Claim(node, port) in claims
  }

  lemma PushPort(entries: seq<InterfaceEntry>, e: InterfaceEntry, node: string, claims: seq<Claim>, more: seq<Claim>)
    requires ClaimedBy(entries, node, claims) && NoDuplicates(ListenPorts(entries))
    requires NoDuplicates(claims + more) && Claim(node, e.listenPort) in more
    ensures ClaimedBy(entries + [e], node, claims + more) && NoDuplicates(ListenPorts(entries + [e]))
  {
    assert ListenPorts(entries + [e]) == ListenPorts(entries) + [e.listenPort];
    if Claim(node, e.listenPort) in claims {
      InBoth(claims, more, Claim(node, e.listenPort));
    }
    PushDistinct(ListenPorts(entries), e.listenPort);
  }

  lemma InBoth<T(!new)>(s: seq<T>, t: seq<T>, x: T)
    requires x in s && x in t
    ensures Twice(s + t, x)
  {
    var i :| 0 <= i < |s| && s[i] == x;
    var j :| 0 <= j < |t| && t[j] == x;
    assert (s + t)[i] == x && (s + t)[|s| + j] == x;
  }

  lemma {:induction false} MeshPorts(t: Topology, addresses: seq<Address>, ownKey: string, links: seq<Link>,
                                     node: string, s: ResolvedSecrets, derive: Derive)
    requires NoDuplicates(LinkClaims(links))
    requires MeshEntries(t, addresses, ownKey, links, node, s, derive).Some?
    ensures var entries := MeshEntries(t, addresses, ownKey, links, node, s, derive).value;
      ClaimedBy(entries, node, LinkClaims(links)) && NoDuplicates(ListenPorts(entries))
  {
    if links == [] {
    } else {
      hide NoDuplicates, FindNode, LinkKey;
      var front, last := links[..|links| - 1], links[|links| - 1];
      var claims := [Claim(last.one, last.port), Claim(last.other, last.port)];
      PrefixDistinct(LinkClaims(front), claims);
      MeshPorts(t, addresses, ownKey, front, node, s, derive);
      var entries := MeshEntries(t, addresses, ownKey, front, node, s, derive).value;
      var peer := PeerOf(last, node);
      if peer.Some? {
        var e := MeshEntry(t, addresses, ownKey, last, peer.value, s, derive).value;
        PushPort(entries, e, node, LinkClaims(front), claims);
      }
    }
  }

  lemma {:induction false} PoolPorts(mesh: seq<InterfaceEntry>, linkClaims: seq<Claim>, pools: seq<Pool>,
                                     node: string, s: ResolvedSecrets)
    requires ClaimedBy(mesh, node, linkClaims) && NoDuplicates(ListenPorts(mesh))
    requires NoDuplicates(linkClaims + PoolClaims(pools))
    ensures ClaimedBy(mesh + PoolEntries(pools, node, s), node, linkClaims + PoolClaims(pools))
    ensures NoDuplicates(ListenPorts(mesh + PoolEntries(pools, node, s)))
  {
    if pools == [] {
      assert mesh + [] == mesh && linkClaims + [] == linkClaims;
    } else {
      hide NoDuplicates, PoolEntry;
      var front, last := pools[..|pools| - 1], pools[|pools| - 1];
      var claims := HostClaims(last.nodes, last.listenPort);
      var before := linkClaims + PoolClaims(front);
      assert linkClaims + PoolClaims(pools) == before + claims;
      PrefixDistinct(before, claims);
      PoolPorts(mesh, linkClaims, front, node, s);
      var entries := mesh + PoolEntries(front, node, s);
      if node in last.nodes {
        var h :| 0 <= h < |last.nodes| && last.nodes[h] == node;
        assert claims[h] == Claim(node, last.listenPort);
        PoolEntryIs(last, s);
        PushPort(entries, PoolEntry(last, s), node, before, claims);
        assert mesh + PoolEntries(pools, node, s) == entries + [PoolEntry(last, s)];
      } else {
        assert mesh + PoolEntries(pools, node, s) == entries;
      }
    }
  }

  /** No two tunnel interfaces rendered for one node of a valid topology listen on one port. */
  lemma PortsAreDistinct(t: Topology, c: Cluster, node: string, s: ResolvedSecrets, derive: Derive)
    requires Valid(t)
    ensures var entries := AwgInterfaces(t, c, node, s, derive);
      entries.Some? ==> NoDuplicates(ListenPorts(entries.value))
  {
    hide NoDuplicates, MeshAddresses, LinkClaims, PoolClaims, MeshEntries, PoolEntries;
    if AwgInterfaces(t, c, node, s, derive).Some? {
      PrefixDistinct(LinkClaims(t.links), PoolClaims(t.pools));
      MeshPorts(t, MeshAddresses(t, c, node).value, s.nodeKeys[node], t.links, node, s, derive);
      PoolPorts(MeshInterfaces(t, c, node, s, derive).value, LinkClaims(t.links), t.pools, node, s);
    }
  }

  // ---- The two ends of a link ----

  lemma {:induction false} MeshEntryOf(t: Topology, addresses: seq<Address>, ownKey: string, links: seq<Link>, i: nat,
                                       node: string, s: ResolvedSecrets, derive: Derive)
    returns (k: nat)
    requires i < |links| && PeerOf(links[i], node).Some?
    requires MeshEntries(t, addresses, ownKey, links, node, s, derive).Some?
    ensures k < |MeshEntries(t, addresses, ownKey, links, node, s, derive).value|
    ensures Some(MeshEntries(t, addresses, ownKey, links, node, s, derive).value[k]) ==
      MeshEntry(t, addresses, ownKey, links[i], PeerOf(links[i], node).value, s, derive)
  {
    hide MeshEntry, PeerOf;
    var front := links[..|links| - 1];
    if i == |front| {
      k := |MeshEntries(t, addresses, ownKey, front, node, s, derive).value|;
    } else {
      k := MeshEntryOf(t, addresses, ownKey, front, i, node, s, derive);
    }
  }

  /** `here`, the interface of one end of a link, speaks to `there`, the interface of the other: under the
      other's name, at the other's host, if it has one, and the link's port, and by the public key of the
      other's private key. */
  ghost predicate SpeaksTo(link: Link, peer: Node, here: InterfaceEntry, there: InterfaceEntry, derive: Derive) {
    && here.name == "mesh-" + peer.name
    && here.listenPort == link.port
    && here.obfuscation == there.obfuscation
    && |here.peers| == 1 && here.peers[0].name == peer.name
    && here.peers[0].allowedIps == None && !here.peers[0].advancedSecurity
    && derive(there.privateKey) == Some(here.peers[0].publicKey)
    && (here.peers[0].endpoint.Some? <==> peer.endpoint.Some?)
    && (peer.endpoint.Some? ==>
          here.peers[0].endpoint.value.host == peer.endpoint.value && here.peers[0].endpoint.value.port == link.port)
  }

  /** A node's addresses on its mesh interfaces: those of the tunnel networks where the cluster has them, the
      IPv6 one for a scope-link address, else the link-local address of its loopback. */
  ghost predicate CarriesAddresses(c: Cluster, id: bv32, addresses: seq<Address>) {
    match c.tunnels
    case TunnelNetworks(n) =>
      && |addresses| == 2
      && addresses[0] == V6(Ipv6Loopback(n.v6, n.len6, id), 64)
      && addresses[1] == V4(Ipv4Loopback(n.v4, n.len4, id), 32)
    case NoTunnels =>
      && |addresses| == 1 && c.loopbacks.Some?
      && addresses[0] == V6(LinkLocalFromLoopback(Ipv6Loopback(c.loopbacks.value.v6, c.loopbacks.value.len6, id)), 64)
    case BadTunnels => false
  }

  /** The interface is the node's own: it has its key, its addresses and what the link resolved to. */
  ghost predicate IsOwn(entry: InterfaceEntry, link: Link, own: Node, c: Cluster, s: ResolvedSecrets) {
    && own.name in s.nodeKeys && entry.privateKey == s.nodeKeys[own.name]
    && own.nodeId.Some? && CarriesAddresses(c, own.nodeId.value, entry.addresses)
    && (KeyOfLink(link) in s.linkObfuscation ==> entry.obfuscation == s.linkObfuscation[KeyOfLink(link)])
  }

  lemma MeshAddressesAre(t: Topology, c: Cluster, node: Node)
    requires ValidNodes(t.nodes) && node in t.nodes && MeshAddresses(t, c, node.name).Some?
    ensures node.nodeId.Some? && CarriesAddresses(c, node.nodeId.value, MeshAddresses(t, c, node.name).value)
  {
    hide FindNode, ValidNodes, Ipv4Loopback, Ipv6Loopback, LinkLocalFromLoopback;
    FoundIsOnly(t.nodes, node.name);
    assert FindNode(t.nodes, node.name) == Some(node);
  }

  /** For every link, the interfaces rendered at its two ends are the nodes' own and speak to each other. */
  lemma EndsAgree(t: Topology, c: Cluster, i: nat, s: ResolvedSecrets, derive: Derive)
      returns (j: nat, k: nat, a: Node, b: Node)
    requires i < |t.links| && ValidNodes(t.nodes)
    ensures var link := t.links[i];
      var one, other := AwgInterfaces(t, c, link.one, s, derive), AwgInterfaces(t, c, link.other, s, derive);
      one.Some? && other.Some? ==>
        && a in t.nodes && a.name == link.one && b in t.nodes && b.name == link.other
        && j < |one.value| && k < |other.value|
        && IsOwn(one.value[j], link, a, c, s) && SpeaksTo(link, b, one.value[j], other.value[k], derive)
        && IsOwn(other.value[k], link, b, c, s) && SpeaksTo(link, a, other.value[k], one.value[j], derive)
  {
    hide MeshAddresses, MeshEntries, PoolEntries, SpeaksTo, MeshEntry, IsOwn, CarriesAddresses;
    var link := t.links[i];
    j, k, a, b := 0, 0, *, *;
    if AwgInterfaces(t, c, link.one, s, derive).Some? && AwgInterfaces(t, c, link.other, s, derive).Some? {
      var addresses, others := MeshAddresses(t, c, link.one).value, MeshAddresses(t, c, link.other).value;
      j := MeshEntryOf(t, addresses, s.nodeKeys[link.one], t.links, i, link.one, s, derive);
      k := MeshEntryOf(t, others, s.nodeKeys[link.other], t.links, i, link.other, s, derive);
      a, b := EntriesMeet(t, c, link, s, derive);
    }
  }

  lemma EntriesMeet(t: Topology, c: Cluster, link: Link, s: ResolvedSecrets, derive: Derive) returns (a: Node, b: Node)
    requires ValidNodes(t.nodes) && link.one in s.nodeKeys && link.other in s.nodeKeys
    requires MeshAddresses(t, c, link.one).Some? && MeshAddresses(t, c, link.other).Some?
    requires var addresses, others := MeshAddresses(t, c, link.one).value, MeshAddresses(t, c, link.other).value;
      && MeshEntry(t, addresses, s.nodeKeys[link.one], link, link.other, s, derive).Some?
      && MeshEntry(t, others, s.nodeKeys[link.other], link, link.one, s, derive).Some?
    ensures var addresses, others := MeshAddresses(t, c, link.one).value, MeshAddresses(t, c, link.other).value;
      var one := MeshEntry(t, addresses, s.nodeKeys[link.one], link, link.other, s, derive).value;
      var other := MeshEntry(t, others, s.nodeKeys[link.other], link, link.one, s, derive).value;
      && a in t.nodes && a.name == link.one && b in t.nodes && b.name == link.other
      && IsOwn(one, link, a, c, s) && SpeaksTo(link, b, one, other, derive)
      && IsOwn(other, link, b, c, s) && SpeaksTo(link, a, other, one, derive)
  {
    a, b := FindNode(t.nodes, link.one).value, FindNode(t.nodes, link.other).value;
    hide LinkKey, FindNode, MeshAddresses, CarriesAddresses, ValidNodes;
    FoundIsOnly(t.nodes, link.one);
    FoundIsOnly(t.nodes, link.other);
    MeshAddressesAre(t, c, a);
    MeshAddressesAre(t, c, b);
  }

  /** A node's key is the one the file has for it, and a drawn one only where the file has none. */
  lemma {:induction false} NodeKeyIs(nodes: seq<Node>, draws: Draws, i: nat)
    requires i < |nodes| && forall j :: i < j < |nodes| ==> nodes[j].name != nodes[i].name
    ensures nodes[i].name in NodeKeys(nodes, draws)
    ensures nodes[i].privateKey.Some? ==> NodeKeys(nodes, draws)[nodes[i].name] == nodes[i].privateKey.value
    ensures nodes[i].privateKey.None? ==> NodeKeys(nodes, draws)[nodes[i].name] == draws.nodeKey(i)
  {
    if i == |nodes| - 1 {
    } else {
      NodeKeyIs(nodes[..|nodes| - 1], draws, i);
    }
  }

  lemma FoundIsOnly(nodes: seq<Node>, name: string)
    requires ValidNodes(nodes)
    ensures forall node :: node in nodes && node.name == name ==> FindNode(nodes, name) == Some(node)
  {
    hide FindNode;
    forall node | node in nodes && node.name == name ensures FindNode(nodes, name) == Some(node) {
      var i :| 0 <= i < |nodes| && nodes[i] == node;
      var found := FindNode(nodes, name);
      var j :| 0 <= j < |nodes| && nodes[j] == found.value;
      assert Names(nodes)[i] == Names(nodes)[j];
    }
  }

  // ---- Pools ----

  lemma {:induction false} PoolSecretsAre(pools: seq<Pool>, global: Obfuscation, draws: Draws, i: nat)
    requires i < |pools| && forall j :: i < j < |pools| ==> pools[j].name != pools[i].name
    ensures pools[i].name in PoolKeys(pools, draws) && pools[i].name in PoolObfuscations(pools, global, draws)
    ensures PoolKeys(pools, draws)[pools[i].name] == KeyOf(pools[i].privateKey, draws.poolKey(i))
    ensures PoolObfuscations(pools, global, draws)[pools[i].name] == OfPool(pools[i], global, draws.pool(i))
  {
    hide KeyOf, OfPool;
    if i == |pools| - 1 {
    } else {
      PoolSecretsAre(pools[..|pools| - 1], global, draws, i);
    }
  }

  lemma {:induction false} PoolEntryOf(pools: seq<Pool>, i: nat, node: string, s: ResolvedSecrets) returns (k: nat)
    requires i < |pools| && node in pools[i].nodes
    ensures k < |PoolEntries(pools, node, s)| && PoolEntries(pools, node, s)[k] == PoolEntry(pools[i], s)
  {
    hide PoolEntry;
    if i < |pools| - 1 {
      k := PoolEntryOf(pools[..|pools| - 1], i, node, s);
    } else {
      k := |PoolEntries(pools[..|pools| - 1], node, s)|;
    }
  }

  /** What every node of a pool serves it by: the pool's port, addresses and clients, and the pool's own
      resolved key and obfuscation, the same on each of them. */
  ghost predicate Serves(entry: InterfaceEntry, pool: Pool, key: string) {
    && entry.name == "rw-" + pool.name && entry.listenPort == pool.listenPort
    && |entry.addresses| == |pool.addresses|
    && (forall m :: 0 <= m < |pool.addresses| ==> entry.addresses[m] == Written(pool.addresses[m]))
    && entry.privateKey == key
    && |entry.peers| == |pool.clients|
    && forall m :: 0 <= m < |pool.clients| ==>
      && entry.peers[m].publicKey == pool.clients[m].publicKey && entry.peers[m].name == pool.clients[m].name
      && entry.peers[m].allowedIps == Some(pool.clients[m].allowedIps) && entry.peers[m].endpoint == None
      && entry.peers[m].advancedSecurity == pool.clients[m].advancedSecurity
  }

  lemma PoolIsServed(t: Topology, node: string, draws: Draws, i: nat) returns (k: nat)
    requires Valid(t) && i < |t.pools| && node in t.pools[i].nodes
    ensures var entries := PoolEntries(t.pools, node, Resolved(t, draws));
      && k < |entries|
      && Serves(entries[k], t.pools[i],
                if t.pools[i].privateKey.Some? then t.pools[i].privateKey.value else draws.poolKey(i))
      && IsLayered(entries[k].obfuscation, t.pools[i].plain, t.pools[i].obfuscation, t.global, draws.pool(i))
  {
    hide ValidNodes, ValidLinks, ValidPool, LinkClaims, PoolClaims, PoolEntries;
    hide NodeKeys, LinkObfuscations, PoolKeys, PoolObfuscations, IsLayered, ObfuscationFor;
    ForIsLayered(t.pools[i].plain, t.pools[i].obfuscation, t.global, draws.pool(i));
    forall j | i < j < |t.pools| ensures t.pools[j].name != t.pools[i].name {
      assert PoolNames(t.pools)[i] != PoolNames(t.pools)[j];
    }
    PoolSecretsAre(t.pools, t.global, draws, i);
    k := PoolEntryOf(t.pools, i, node, Resolved(t, draws));
  }

  // ---- When rendering succeeds ----

  lemma {:induction false} NodeKeysHave(nodes: seq<Node>, draws: Draws, name: string)
    ensures name in NodeKeys(nodes, draws) <==> name in Names(nodes)
  {
    if nodes == [] {
    } else {
      var front := nodes[..|nodes| - 1];
      NodeKeysHave(front, draws, name);
      assert Names(nodes) == Names(front) + [nodes[|nodes| - 1].name];
    }
  }

  ghost predicate KeyDerives(s: ResolvedSecrets, derive: Derive, peer: string) {
    peer in s.nodeKeys && derive(s.nodeKeys[peer]).Some?
  }

  lemma {:induction false} MeshSucceeds(t: Topology, addresses: seq<Address>, ownKey: string, links: seq<Link>,
                                        node: string, s: ResolvedSecrets, derive: Derive)
    requires ValidLinks(links, Names(t.nodes))
    ensures MeshEntries(t, addresses, ownKey, links, node, s, derive).Some? <==>
      forall i :: 0 <= i < |links| && PeerOf(links[i], node).Some? ==>
        KeyDerives(s, derive, PeerOf(links[i], node).value)
  {
    if links == [] {
    } else {
      hide FindNode, LinkKey, Names;
      var front, last := links[..|links| - 1], links[|links| - 1];
      MeshSucceeds(t, addresses, ownKey, front, node, s, derive);
      var peer := PeerOf(last, node);
      if peer.Some? {
        NamedIsFound(t.nodes, peer.value);
      }
    }
  }

  lemma NamedIsFound(nodes: seq<Node>, name: string)
    requires name in Names(nodes)
    ensures FindNode(nodes, name).Some?
  {
    hide FindNode;
    var i :| 0 <= i < |nodes| && Names(nodes)[i] == name;
    assert nodes[i] in nodes;
  }

  lemma IdIsKnown(nodes: seq<Node>, name: string)
    requires ValidNodes(nodes) && name in Names(nodes)
    ensures NodeIdOf(nodes, name).Some?
  {
    hide FindNode;
    NamedIsFound(nodes, name);
  }

  /** Rendering a node of a valid topology with its resolved secrets fails only for an address plan that
      does not parse or a peer's private key that is no key: no reference dangles. */
  lemma RendersIff(t: Topology, c: Cluster, node: string, draws: Draws, derive: Derive)
    requires Valid(t) && node in Names(t.nodes)
    ensures AwgInterfaces(t, c, node, Resolved(t, draws), derive).Some? <==>
      && c.loopbacks.Some? && !c.tunnels.BadTunnels?
      && forall i :: 0 <= i < |t.links| && PeerOf(t.links[i], node).Some? ==>
        derive(NodeKeyAt(t, draws, PeerOf(t.links[i], node).value)).Some?
  {
    hide FindNode, MeshEntries, PoolEntries, NodeKeys, LinkObfuscations, PoolKeys, PoolObfuscations, ValidPools,
      ValidNodes;
    var s := Resolved(t, draws);
    IdIsKnown(t.nodes, node);
    NodeKeysHave(t.nodes, draws, node);
    forall i | 0 <= i < |t.links| && PeerOf(t.links[i], node).Some?
      ensures PeerOf(t.links[i], node).value in s.nodeKeys
    {
      NodeKeysHave(t.nodes, draws, PeerOf(t.links[i], node).value);
    }
    if MeshAddresses(t, c, node).Some? {
      MeshSucceeds(t, MeshAddresses(t, c, node).value, s.nodeKeys[node], t.links, node, s, derive);
    }
  }

  function NodeKeyAt(t: Topology, draws: Draws, node: string): string {
    var keys := NodeKeys(t.nodes, draws);
    if node in keys then keys[node] else ""
  }

  // ---- Interface names ----

  function EntryNames(entries: seq<InterfaceEntry>): seq<string> {
    seq(|entries|, i requires 0 <= i < |entries| => entries[i].name)
  }

  /** The nodes a node has links to, a node once per link. */
  function LinkedTo(links: seq<Link>, node: string): seq<string> {
    if links == [] then []
    else
      var peer := PeerOf(links[|links| - 1], node);
      if peer.None? then LinkedTo(links[..|links| - 1], node) else LinkedTo(links[..|links| - 1], node) + [peer.value]
  }

  lemma {:induction false} MeshNames(t: Topology, addresses: seq<Address>, ownKey: string, links: seq<Link>,
                                     node: string, s: ResolvedSecrets, derive: Derive)
    requires MeshEntries(t, addresses, ownKey, links, node, s, derive).Some?
    ensures var entries := MeshEntries(t, addresses, ownKey, links, node, s, derive).value;
      && |entries| == |LinkedTo(links, node)|
      && forall i :: 0 <= i < |entries| ==> entries[i].name == "mesh-" + LinkedTo(links, node)[i]
  {
    if links == [] {
    } else {
      hide FindNode, LinkKey, PeerOf;
      MeshNames(t, addresses, ownKey, links[..|links| - 1], node, s, derive);
    }
  }

  /** A name of one of the pools' interfaces. */
  ghost predicate NamesPool(name: string, pools: seq<Pool>) {
    |name| >= 3 && name[..3] == "rw-" && name[3..] in PoolNames(pools)
  }

  lemma {:induction false} PoolEntryNames(pools: seq<Pool>, node: string, s: ResolvedSecrets)
    requires NoDuplicates(PoolNames(pools))
    ensures NoDuplicates(EntryNames(PoolEntries(pools, node, s)))
    ensures forall name :: name in EntryNames(PoolEntries(pools, node, s)) ==> NamesPool(name, pools)
  {
    if pools == [] {
    } else {
      hide NoDuplicates, PoolEntry, PoolNames;
      var front, last := pools[..|pools| - 1], pools[|pools| - 1];
      PoolNamesPush(front, last);
      assert pools == front + [last];
      PushDistinct(PoolNames(front), last.name);
      PoolEntryNames(front, node, s);
      EntryNamesPush(PoolEntries(front, node, s), PoolEntry(last, s));
      PoolEntryIs(last, s);
      PushDistinct(EntryNames(PoolEntries(front, node, s)), "rw-" + last.name);
    }
  }

  lemma PoolNamesPush(front: seq<Pool>, last: Pool)
    ensures PoolNames(front + [last]) == PoolNames(front) + [last.name]
  {}

  lemma EntryNamesPush(entries: seq<InterfaceEntry>, e: InterfaceEntry)
    ensures EntryNames(entries + [e]) == EntryNames(entries) + [e.name]
  {}

  lemma SamePrefix(prefix: string, a: string, b: string)
    ensures prefix + a == prefix + b <==> a == b
  {
    assert (prefix + a)[|prefix|..] == a && (prefix + b)[|prefix|..] == b;
  }

  /** The interface names of a node are distinct, as the daemon demands, exactly when no other node is
      linked to it twice: the validator itself lets two links between the same nodes pass. */
  lemma NamesAreDistinctIff(t: Topology, c: Cluster, node: string, s: ResolvedSecrets, derive: Derive)
    requires Valid(t)
    ensures var entries := AwgInterfaces(t, c, node, s, derive);
      entries.Some? ==> (NoDuplicates(EntryNames(entries.value)) <==> NoDuplicates(LinkedTo(t.links, node)))
  {
    hide MeshAddresses, MeshEntries, PoolEntries, LinkClaims, PoolClaims, ValidNodes, ValidLinks, ValidPool, LinkedTo;
    if AwgInterfaces(t, c, node, s, derive).Some? {
      var mesh, pools := MeshInterfaces(t, c, node, s, derive).value, PoolEntries(t.pools, node, s);
      MeshNames(t, MeshAddresses(t, c, node).value, s.nodeKeys[node], t.links, node, s, derive);
      PoolEntryNames(t.pools, node, s);
      forall name | name in EntryNames(pools) ensures name != "" && name[..1] == "r" {
        assert name[..1] == name[..3][..1];
      }
      NamesOfBoth(mesh, LinkedTo(t.links, node), pools);
    }
  }

  lemma NamesOfBoth(mesh: seq<InterfaceEntry>, peers: seq<string>, pools: seq<InterfaceEntry>)
    requires |mesh| == |peers| && forall i :: 0 <= i < |mesh| ==> mesh[i].name == "mesh-" + peers[i]
    requires NoDuplicates(EntryNames(pools))
    requires forall name :: name in EntryNames(pools) ==> name != "" && name[..1] == "r"
    ensures NoDuplicates(EntryNames(mesh + pools)) <==> NoDuplicates(peers)
  {
    var names := EntryNames(mesh + pools);
    assert forall i :: 0 <= i < |mesh| ==> names[i] == "mesh-" + peers[i];
    assert forall i :: 0 <= i < |pools| ==> names[|mesh| + i] == EntryNames(pools)[i];
    forall i, j | 0 <= i < j < |mesh| ensures names[i] == names[j] <==> peers[i] == peers[j] {
      SamePrefix("mesh-", peers[i], peers[j]);
    }
    forall i, j | 0 <= i < |mesh| <= j < |names| ensures names[i] != names[j] {
      assert names[j] == EntryNames(pools)[j - |mesh|];
      assert names[i] == "mesh-" + peers[i];
      assert names[i][..1] == "mesh-"[..1];
      assert "mesh-"[..1] == "m";
    }
    forall i, j | |mesh| <= i < j < |names| ensures names[i] != names[j] {
      assert names[i] == EntryNames(pools)[i - |mesh|] && names[j] == EntryNames(pools)[j - |mesh|];
    }
  }

  // ---- Plain links ----

  /** The last link of a key, whose obfuscation every link of that key is rendered with. */
  function LastOf(links: seq<Link>, key: string): (i: nat)
    requires exists k :: 0 <= k < |links| && KeyOfLink(links[k]) == key
    ensures i < |links| && KeyOfLink(links[i]) == key
    ensures forall j :: i < j < |links| ==> KeyOfLink(links[j]) != key
  {
    var n := |links| - 1;
    if KeyOfLink(links[n]) == key then n
    else
      assert exists k :: 0 <= k < |links[..n]| && KeyOfLink(links[..n][k]) == key by {
        var k :| 0 <= k < |links| && KeyOfLink(links[k]) == key;
        assert links[..n][k] == links[k];
      }
      LastOf(links[..n], key)
  }

  lemma {:induction false} ObfuscationIsLast(links: seq<Link>, global: Obfuscation, draws: Draws, i: nat)
    requires i < |links| && forall j :: i < j < |links| ==> KeyOfLink(links[j]) != KeyOfLink(links[i])
    ensures KeyOfLink(links[i]) in LinkObfuscations(links, global, draws)
    ensures LinkObfuscations(links, global, draws)[KeyOfLink(links[i])] == OfLink(links[i], global, draws.link(i))
  {
    hide KeyOfLink, OfLink;
    if i == |links| - 1 {
    } else {
      ObfuscationIsLast(links[..|links| - 1], global, draws, i);
    }
  }

  lemma ResolvedPlainIff(t: Topology, draws: Draws, i: nat)
    requires SetsNine(draws) && i < |t.links|
    ensures KeyOfLink(t.links[i]) in Resolved(t, draws).linkObfuscation
    ensures Resolved(t, draws).linkObfuscation[KeyOfLink(t.links[i])] == map[] <==>
      t.links[LastOf(t.links, KeyOfLink(t.links[i]))].plain
    ensures var l := LastOf(t.links, KeyOfLink(t.links[i]));
      IsLayered(Resolved(t, draws).linkObfuscation[KeyOfLink(t.links[i])], t.links[l].plain, t.links[l].obfuscation,
                t.global, draws.link(l))
  {
    hide KeyOfLink, LinkObfuscations, LastOf, NodeKeys, PoolKeys, PoolObfuscations, IsLayered;
    var last := LastOf(t.links, KeyOfLink(t.links[i]));
    ForIsLayered(t.links[last].plain, t.links[last].obfuscation, t.global, draws.link(last));
    ObfuscationIsLast(t.links, t.global, draws, last);
    PlainIsEmpty(t.links[last], t.global, draws.link(last));
  }

  /** The interface rendered for an end of a link is without obfuscation exactly when the last link of its
      key is plain: a plain link alone under its key always is, one whose key a later link shares may not
      be. */
  lemma RenderedPlainIff(t: Topology, c: Cluster, node: string, draws: Draws, derive: Derive, i: nat) returns (k: nat)
    requires SetsNine(draws) && i < |t.links| && PeerOf(t.links[i], node).Some?
    requires AwgInterfaces(t, c, node, Resolved(t, draws), derive).Some?
    ensures var entries := AwgInterfaces(t, c, node, Resolved(t, draws), derive).value;
      && k < |entries|
      && entries[k].name == "mesh-" + PeerOf(t.links[i], node).value && entries[k].listenPort == t.links[i].port
      && (entries[k].obfuscation == map[] <==> t.links[LastOf(t.links, KeyOfLink(t.links[i]))].plain)
      && var l := LastOf(t.links, KeyOfLink(t.links[i]));
         IsLayered(entries[k].obfuscation, t.links[l].plain, t.links[l].obfuscation, t.global, draws.link(l))
  {
    var s := Resolved(t, draws);
    ResolvedPlainIff(t, draws, i);
    hide Resolved, MeshEntries, MeshAddresses, PoolEntries, LastOf, LinkKey, FindNode, IsLayered;
    k := MeshEntryOf(t, MeshAddresses(t, c, node).value, s.nodeKeys[node], t.links, i, node, s, derive);
  }

  /** Four nodes, two of them with a bar in their names, and two links that join them in pairs, of which the
      first is plain. */
  function BarTopology(): Topology {
    Topology(
      map[],
      [Node("a|b", Some(1), None, None), Node("c", Some(2), None, None),
       Node("a", Some(3), None, None), Node("b|c", Some(4), None, None)],
      [Link("a|b", "c", 1, map[], true), Link("a", "b|c", 2, map[], false)],
      [],
      [])
  }

  lemma BarClaims()
    ensures Claims(BarTopology()) == [Claim("a|b", 1), Claim("c", 1), Claim("a", 2), Claim("b|c", 2)]
  {
    var links := BarTopology().links;
    assert links[..1] == [links[0]] && links[..1][..0] == [];
    assert LinkClaims(links[..1]) == [Claim("a|b", 1), Claim("c", 1)];
  }

  lemma BarTopologyIsValid()
    ensures Valid(BarTopology())
  {
    var t := BarTopology();
    BarClaims();
    hide Claims;
    assert Names(t.nodes) == ["a|b", "c", "a", "b|c"];
    assert NodeIds(t.nodes) == [Some(1), Some(2), Some(3), Some(4)];
  }

  lemma BarLinkedTo(node: string)
    requires node in ["a|b", "c"]
    ensures var links := BarTopology().links;
      && PeerOf(links[0], node).Some? && PeerOf(links[1], node).None?
      && LinkedTo(links, node) == [PeerOf(links[0], node).value]
  {
    var links := BarTopology().links;
    assert links[..1] == [links[0]] && links[..1][..0] == [];
    assert LinkedTo(links[..1], node) == [PeerOf(links[0], node).value];
  }

  lemma BarShadowed()
    ensures LastOf(BarTopology().links, KeyOfLink(BarTopology().links[0])) == 1
  {
    BarsConfuseLinkKeys();
    hide LinkKey;
  }

  /** The validator accepts it, no node of the plain link has two interfaces of one name, and yet both ends
      of it are rendered with obfuscation. */
  lemma BarNamesExample(c: Cluster, draws: Draws, derive: Derive, node: string)
    requires SetsNine(draws) && c.loopbacks.Some? && !c.tunnels.BadTunnels? && forall key :: derive(key).Some?
    requires node in ["a|b", "c"]
    ensures var t := BarTopology(); var entries := AwgInterfaces(t, c, node, Resolved(t, draws), derive);
      && Valid(t) && t.links[0].plain && PeerOf(t.links[0], node).Some?
      && entries.Some? && |entries.value| == 1
      && entries.value[0].name == "mesh-" + PeerOf(t.links[0], node).value
      && entries.value[0].obfuscation != map[]
  {
    var t := BarTopology();
    var s := Resolved(t, draws);
    BarTopologyIsValid();
    BarLinkedTo(node);
    BarShadowed();
    assert t.links[0].plain && !t.links[1].plain && t.pools == [] && node in Names(t.nodes) by {
      assert Names(t.nodes)[0] == "a|b" && Names(t.nodes)[1] == "c";
    }
    hide BarTopology, Resolved, Valid, LastOf, KeyOfLink, LinkedTo, PeerOf, MeshEntries, MeshAddresses, NodeKeyAt;
    RendersIff(t, c, node, draws, derive);
    var k := RenderedPlainIff(t, c, node, draws, derive, 0);
    MeshNames(t, MeshAddresses(t, c, node).value, s.nodeKeys[node], t.links, node, s, derive);
  }

  lemma PlainIsEmpty(link: Link, global: Obfuscation, drawn: Obfuscation)
    requires drawn.Keys == Nine()
    ensures OfLink(link, global, drawn) == map[] <==> link.plain
  {
    assert Jc in drawn;
    assert Jc in Layered(link.obfuscation, global, drawn);
  }

  // ---- BGP peers ----

  function BgpPeersAmong(t: Topology, c: Cluster, nodes: seq<Node>, node: string): Option<seq<BgpPeer>> {
    if nodes == [] then Some([])
    else
      var last := nodes[|nodes| - 1];
      var front := BgpPeersAmong(t, c, nodes[..|nodes| - 1], node);
      if front.None? || last.name == node then front
      else
        var loopbacks := NodeLoopbacks(t, c, last.name);
        if loopbacks.None? then None else Some(front.value + [BgpPeer(last.name, loopbacks.value.v6)])
  }

  /** Every other node by its IPv6 loopback. */
  function BgpPeersFor(t: Topology, c: Cluster, node: string): Option<seq<BgpPeer>> {
    BgpPeersAmong(t, c, t.nodes, node)
  }

  function Others(nodes: seq<Node>, node: string): seq<Node> {
    if nodes == [] then []
    else
      var last := nodes[|nodes| - 1];
      var front := Others(nodes[..|nodes| - 1], node);
      if last.name == node then front else front + [last]
  }

  lemma {:induction false} OthersAre(nodes: seq<Node>, node: string, n: Node)
    ensures n in Others(nodes, node) <==> n in nodes && n.name != node
  {
    if nodes == [] {
    } else {
      OthersAre(nodes[..|nodes| - 1], node, n);
      assert nodes == nodes[..|nodes| - 1] + [nodes[|nodes| - 1]];
    }
  }

  /** The others come in the order of the file. */
  lemma {:induction false} OthersInOrder(nodes: seq<Node>, node: string, i: nat, j: nat) returns (p: nat, q: nat)
    requires i < j < |Others(nodes, node)|
    ensures p < q < |nodes| && nodes[p] == Others(nodes, node)[i] && nodes[q] == Others(nodes, node)[j]
  {
    var front, last := nodes[..|nodes| - 1], nodes[|nodes| - 1];
    if j < |Others(front, node)| {
      p, q := OthersInOrder(front, node, i, j);
    } else {
      q := |front|;
      OthersAre(front, node, Others(front, node)[i]);
      p :| 0 <= p < |front| && front[p] == Others(front, node)[i];
    }
  }

  lemma NamesPush(front: seq<Node>, last: Node)
    ensures Names(front + [last]) == Names(front) + [last.name]
  {}

  lemma NameIn(nodes: seq<Node>, name: string)
    ensures name in Names(nodes) <==> exists n :: n in nodes && n.name == name
  {
    if name in Names(nodes) {
      var i :| 0 <= i < |nodes| && Names(nodes)[i] == name;
      assert nodes[i] in nodes && nodes[i].name == name;
    }
    if n :| n in nodes && n.name == name {
      var i :| 0 <= i < |nodes| && nodes[i] == n;
      assert Names(nodes)[i] == name;
    }
  }

  lemma {:induction false} OthersDistinct(nodes: seq<Node>, node: string)
    requires NoDuplicates(Names(nodes))
    ensures NoDuplicates(Names(Others(nodes, node)))
  {
    if nodes == [] {
    } else {
      hide NoDuplicates, Names;
      var front, last := nodes[..|nodes| - 1], nodes[|nodes| - 1];
      var others := Others(front, node);
      assert nodes == front + [last];
      NamesPush(front, last);
      PushDistinct(Names(front), last.name);
      OthersDistinct(front, node);
      NamesPush(others, last);
      PushDistinct(Names(others), last.name);
      NameIn(others, last.name);
      NameIn(front, last.name);
      if n :| n in others && n.name == last.name {
        OthersAre(front, node, n);
      }
    }
  }

  /** A peer entry is what one of the other nodes renders to. */
  ghost predicate IsPeer(c: Cluster, peer: BgpPeer, of: Node) {
    && c.loopbacks.Some? && of.nodeId.Some?
    && peer == BgpPeer(of.name, Ipv6Loopback(c.loopbacks.value.v6, c.loopbacks.value.len6, of.nodeId.value))
  }

  lemma {:induction false} BgpPeersAre(t: Topology, c: Cluster, nodes: seq<Node>, node: string)
    requires ValidNodes(t.nodes) && c.loopbacks.Some? && forall n :: n in nodes ==> n in t.nodes
    ensures BgpPeersAmong(t, c, nodes, node).Some?
    ensures var peers, others := BgpPeersAmong(t, c, nodes, node).value, Others(nodes, node);
      |peers| == |others| && forall i :: 0 <= i < |peers| ==> IsPeer(c, peers[i], others[i])
  {
    if nodes == [] {
    } else {
      hide ValidNodes, IsPeer, NodeLoopbacks;
      var last := nodes[|nodes| - 1];
      assert last in nodes;
      assert forall n :: n in nodes[..|nodes| - 1] ==> n in nodes;
      BgpPeersAre(t, c, nodes[..|nodes| - 1], node);
      PeerIsNode(t, c, last);
    }
  }

  lemma PeerIsNode(t: Topology, c: Cluster, n: Node)
    requires ValidNodes(t.nodes) && c.loopbacks.Some? && n in t.nodes
    ensures NodeLoopbacks(t, c, n.name).Some?
    ensures IsPeer(c, BgpPeer(n.name, NodeLoopbacks(t, c, n.name).value.v6), n)
  {
    hide ValidNodes, FindNode, Ipv6Loopback, Ipv4Loopback;
    FoundIsOnly(t.nodes, n.name);
    assert FindNode(t.nodes, n.name) == Some(n);
    HasId(t.nodes, n);
  }

  lemma HasId(nodes: seq<Node>, node: Node)
    ensures ValidNodes(nodes) && node in nodes ==> node.nodeId.Some?
  {}

  function PeerAddresses(peers: seq<BgpPeer>): seq<bv128> {
    seq(|peers|, i requires 0 <= i < |peers| => peers[i].address)
  }

  /** A node of a valid topology has every other node for a BGP peer, once, in the order of the file. */
  lemma BgpPeersAreTheOthers(t: Topology, c: Cluster, node: string)
    requires Valid(t) && c.loopbacks.Some?
    ensures BgpPeersFor(t, c, node).Some?
    ensures var peers, others := BgpPeersFor(t, c, node).value, Others(t.nodes, node);
      |peers| == |others| && forall i :: 0 <= i < |peers| ==>
        peers[i].name == others[i].name
        && NodeLoopbacks(t, c, peers[i].name).Some?
        && peers[i].address == NodeLoopbacks(t, c, peers[i].name).value.v6
  {
    hide ValidLinks, ValidPools, ValidNodes, LinkClaims, PoolClaims, BgpPeersAmong, Others, NodeLoopbacks, Ipv6Loopback;
    BgpPeersAre(t, c, t.nodes, node);
    var others := Others(t.nodes, node);
    forall i | 0 <= i < |others|
      ensures NodeLoopbacks(t, c, others[i].name).Some?
      ensures IsPeer(c, BgpPeer(others[i].name, NodeLoopbacks(t, c, others[i].name).value.v6), others[i])
    {
      OthersAre(t.nodes, node, others[i]);
      PeerIsNode(t, c, others[i]);
    }
  }

  /** The BGP peer addresses of a node are distinct exactly when no two other nodes agree on the host bits
      that the loopback network leaves; a network of at most 96 bits leaves all of an identity. */
  lemma BgpAddressesAreDistinctIff(t: Topology, c: Cluster, node: string)
    requires Valid(t) && c.loopbacks.Some?
    ensures BgpPeersFor(t, c, node).Some?
    ensures NoDuplicates(PeerAddresses(BgpPeersFor(t, c, node).value)) <==>
      HostBitsDiffer(Others(t.nodes, node), c.loopbacks.value.len6)
    ensures c.loopbacks.value.len6 <= 96 ==> NoDuplicates(PeerAddresses(BgpPeersFor(t, c, node).value))
  {
    hide ValidLinks, ValidPools, LinkClaims, PoolClaims, BgpPeersAmong, Others, FindNode, Ipv6Loopback, HostBits6;
    BgpPeersAre(t, c, t.nodes, node);
    var peers, others, networks := BgpPeersFor(t, c, node).value, Others(t.nodes, node), c.loopbacks.value;
    forall i, j | 0 <= i < j < |others|
      ensures PeerAddresses(peers)[i] == PeerAddresses(peers)[j] <==> SameHostBits(others[i], others[j], networks.len6)
    {
      Ipv6LoopbackLaws(networks.v6, networks.len6, others[i].nodeId.value, others[j].nodeId.value);
    }
    if networks.len6 <= 96 {
      forall i, j | 0 <= i < j < |others| ensures PeerAddresses(peers)[i] != PeerAddresses(peers)[j] {
        IdsDiffer(t.nodes, node, i, j);
        Ipv6NeverCollidesIff(networks.v6, networks.len6);
      }
    }
  }

  predicate SameHostBits(a: Node, b: Node, len: Prefix6Len) {
    a.nodeId.Some? && b.nodeId.Some? && HostBits6(a.nodeId.value, len) == HostBits6(b.nodeId.value, len)
  }

  ghost predicate HostBitsDiffer(nodes: seq<Node>, len: Prefix6Len) {
    forall i, j :: 0 <= i < j < |nodes| ==> !SameHostBits(nodes[i], nodes[j], len)
  }

  lemma IdsDiffer(nodes: seq<Node>, node: string, i: nat, j: nat)
    requires ValidNodes(nodes) && i < j < |Others(nodes, node)|
    ensures Others(nodes, node)[i].nodeId.Some? && Others(nodes, node)[i].nodeId != Others(nodes, node)[j].nodeId
  {
    hide Others;
    OthersDistinct(nodes, node);
    var others := Others(nodes, node);
    OthersAre(nodes, node, others[i]);
    OthersAre(nodes, node, others[j]);
    var k :| 0 <= k < |nodes| && nodes[k] == others[i];
    var l :| 0 <= l < |nodes| && nodes[l] == others[j];
    assert Names(others)[i] != Names(others)[j];
    assert NodeIds(nodes)[k] != NodeIds(nodes)[l];
  }

  /** The network that the first address of a mesh interface is derived from. */
  function MeshNetworkLen(c: Cluster): Prefix6Len
    requires c.loopbacks.Some?
  {
    if c.tunnels.TunnelNetworks? then c.tunnels.networks.len6 else c.loopbacks.value.len6
  }

  /** The mesh interfaces of two nodes carry different scope-link addresses whenever the network they are
      derived from has at most 96 bits. */
  lemma LinkLocalsAreDistinct(t: Topology, c: Cluster, a: Node, b: Node)
    requires ValidNodes(t.nodes) && a in t.nodes && b in t.nodes && a != b
    requires MeshAddresses(t, c, a.name).Some? && MeshAddresses(t, c, b.name).Some? && MeshNetworkLen(c) <= 96
    ensures MeshAddresses(t, c, a.name).value[0] != MeshAddresses(t, c, b.name).value[0]
  {
    hide ValidLinks, ValidPools, ValidNodes, LinkClaims, PoolClaims, FindNode;
    hide Ipv6Loopback, Ipv4Loopback, LinkLocalFromLoopback, LowWord;
    FoundIsOnly(t.nodes, a.name);
    FoundIsOnly(t.nodes, b.name);
    assert FindNode(t.nodes, a.name) == Some(a) && FindNode(t.nodes, b.name) == Some(b);
    NodesHaveIds(t.nodes, a, b);
    var networks := if c.tunnels.TunnelNetworks? then c.tunnels.networks else c.loopbacks.value;
    LoopbackKeepsIdentity(networks.v6, networks.len6, a.nodeId.value);
    LoopbackKeepsIdentity(networks.v6, networks.len6, b.nodeId.value);
    LinkLocalLaws(Ipv6Loopback(networks.v6, networks.len6, a.nodeId.value));
    LinkLocalLaws(Ipv6Loopback(networks.v6, networks.len6, b.nodeId.value));
  }

  lemma NodesHaveIds(nodes: seq<Node>, a: Node, b: Node)
    requires ValidNodes(nodes) && a in nodes && b in nodes && a != b
    ensures a.nodeId.Some? && b.nodeId.Some? && a.nodeId != b.nodeId
  {
    var i :| 0 <= i < |nodes| && nodes[i] == a;
    var j :| 0 <= j < |nodes| && nodes[j] == b;
    assert NodeIds(nodes)[i] == a.nodeId && NodeIds(nodes)[j] == b.nodeId;
  }
}
