/** What a valid topology is, said of its entries: the validator accepts exactly these. */
module Validity {
  import opened Lists
  import opened MeshConfig
  import opened Topologies

  ghost predicate Known(nodes: seq<Node>, name: string) {
    exists node :: node in nodes && node.name == name
  }

  ghost predicate NodesAreDistinct(nodes: seq<Node>) {
    && nodes != []
    && (forall node :: node in nodes ==> node.name != "" && node.nodeId.Some?)
    && (forall i, j :: 0 <= i < j < |nodes| ==> nodes[i].name != nodes[j].name && nodes[i].nodeId != nodes[j].nodeId)
  }

  ghost predicate ReferencesAreKnown(t: Topology) {
    && (forall link :: link in t.links ==> Known(t.nodes, link.one) && Known(t.nodes, link.other))
    && (forall link :: link in t.links ==> link.one != link.other)
    && (forall pool, name :: pool in t.pools && name in pool.nodes ==> Known(t.nodes, name))
    && (forall name :: name in t.bypass ==> Known(t.nodes, name))
  }

  ghost predicate PoolsAreDistinct(pools: seq<Pool>) {
    && (forall pool :: pool in pools ==> pool.nodes != [])
    && (forall i, j :: 0 <= i < j < |pools| ==> pools[i].name != pools[j].name)
    && (forall pool :: pool in pools ==> forall i, j :: 0 <= i < j < |pool.clients| ==>
          pool.clients[i].publicKey != pool.clients[j].publicKey)
  }

  /** The link ends at the node. */
  predicate EndsAt(link: Link, name: string) {
    link.one == name || link.other == name
  }

  /** No node has two interfaces that listen on one port: two links, a link and a pool, two pools, or one pool
      that lists it twice. */
  ghost predicate PortsAreFree(t: Topology) {
    && (forall i, j, name :: 0 <= i < j < |t.links| && EndsAt(t.links[i], name) && EndsAt(t.links[j], name) ==>
          t.links[i].port != t.links[j].port)
    && (forall link, pool, name :: link in t.links && pool in t.pools && EndsAt(link, name) && name in pool.nodes ==>
          link.port != pool.listenPort)
    && (forall i, j, name :: 0 <= i < j < |t.pools| && name in t.pools[i].nodes && name in t.pools[j].nodes ==>
          t.pools[i].listenPort != t.pools[j].listenPort)
    && (forall pool :: pool in t.pools ==> NoDuplicates(pool.nodes))
  }

  // ---- Claims ----

  lemma AppendDistinct<T(!new)>(s: seq<T>, t: seq<T>)
    ensures NoDuplicates(s + t) <==> NoDuplicates(s) && NoDuplicates(t) && forall x :: !(x in s && x in t)
  {
    var all := s + t;
    assert forall i :: 0 <= i < |s| ==> all[i] == s[i];
    assert forall i :: 0 <= i < |t| ==> all[|s| + i] == t[i];
    if NoDuplicates(all) {
      forall i, j | 0 <= i < j < |s| ensures s[i] != s[j] {
        assert all[i] != all[j];
      }
      forall i, j | 0 <= i < j < |t| ensures t[i] != t[j] {
        assert all[|s| + i] != all[|s| + j];
      }
      forall i, j | 0 <= i < |s| && 0 <= j < |t| ensures s[i] != t[j] {
        assert all[i] != all[|s| + j];
      }
    }
    if NoDuplicates(s) && NoDuplicates(t) && forall x :: !(x in s && x in t) {
      forall i, j | 0 <= i < j < |all| ensures all[i] != all[j] {
        if i < |s| <= j {
          assert all[i] in s && all[j] == t[j - |s|] && t[j - |s|] in t;
        } else if |s| <= i {
          assert all[i] == t[i - |s|] && all[j] == t[j - |s|];
        }
      }
    }
  }

  lemma {:induction false} LinkClaimed(links: seq<Link>, c: Claim)
    ensures c in LinkClaims(links) <==> exists link :: link in links && EndsAt(link, c.node) && link.port == c.port
  {
    if links == [] {
    } else {
      var front, last := links[..|links| - 1], links[|links| - 1];
      LinkClaimed(front, c);
      assert links == front + [last];
      assert c in [Claim(last.one, last.port), Claim(last.other, last.port)] <==>
        EndsAt(last, c.node) && last.port == c.port;
    }
  }

  lemma {:induction false} PoolClaimed(pools: seq<Pool>, c: Claim)
    ensures c in PoolClaims(pools) <==>
      exists pool :: pool in pools && c.node in pool.nodes && pool.listenPort == c.port
  {
    if pools == [] {
    } else {
      var front, last := pools[..|pools| - 1], pools[|pools| - 1];
      PoolClaimsAre(pools);
      PoolClaimed(front, c);
      HostClaimed(last.nodes, last.listenPort, c);
      hide PoolClaims, HostClaims;
      assert pools == front + [last];
    }
  }

  lemma PoolClaimsAre(pools: seq<Pool>)
    requires pools != []
    ensures PoolClaims(pools) ==
      PoolClaims(pools[..|pools| - 1]) + HostClaims(pools[|pools| - 1].nodes, pools[|pools| - 1].listenPort)
  {}

  lemma HostClaimed(hosts: seq<string>, port: nat, c: Claim)
    ensures c in HostClaims(hosts, port) <==> c.node in hosts && c.port == port
    ensures NoDuplicates(HostClaims(hosts, port)) <==> NoDuplicates(hosts)
  {
    var claims := HostClaims(hosts, port);
    assert forall i :: 0 <= i < |hosts| ==> claims[i] == Claim(hosts[i], port);
    if c.node in hosts && c.port == port {
      var i :| 0 <= i < |hosts| && hosts[i] == c.node;
      assert claims[i] == c;
    }
  }

  ghost predicate LinkPortsFree(links: seq<Link>) {
    && (forall link :: link in links ==> link.one != link.other)
    && forall i, j, name :: 0 <= i < j < |links| && EndsAt(links[i], name) && EndsAt(links[j], name) ==>
         links[i].port != links[j].port
  }

  /** None of the links shares a node and its port with `last`. */
  ghost predicate LinkClear(links: seq<Link>, last: Link) {
    forall link, name :: link in links && EndsAt(link, name) && EndsAt(last, name) ==> link.port != last.port
  }

  lemma LinkClearIff(links: seq<Link>, last: Link)
    ensures LinkClear(links, last) <==>
      forall c :: !(c in LinkClaims(links) && c in [Claim(last.one, last.port), Claim(last.other, last.port)])
  {
    var mine := [Claim(last.one, last.port), Claim(last.other, last.port)];
    LinkClaimed(links, mine[0]);
    LinkClaimed(links, mine[1]);
    hide LinkClaims;
    assert forall c :: c in mine <==> c == mine[0] || c == mine[1];
  }

  lemma TwoClaims(link: Link)
    ensures NoDuplicates([Claim(link.one, link.port), Claim(link.other, link.port)]) <==> link.one != link.other
  {
    var mine := [Claim(link.one, link.port), Claim(link.other, link.port)];
    assert mine[0] != mine[1] <==> link.one != link.other;
  }

  lemma LinkClaimsAre(front: seq<Link>, last: Link)
    ensures LinkClaims(front + [last]) == LinkClaims(front) + [Claim(last.one, last.port), Claim(last.other, last.port)]
  {
    assert (front + [last])[..|front|] == front;
  }

  lemma {:induction false} LinksDistinct(links: seq<Link>)
    ensures NoDuplicates(LinkClaims(links)) <==> LinkPortsFree(links)
  {
    if links == [] {
    } else {
      var front, last := links[..|links| - 1], links[|links| - 1];
      assert links == front + [last];
      hide *;
      LinksDistinct(front);
      LinkClaimsAre(front, last);
      AppendDistinct(LinkClaims(front), [Claim(last.one, last.port), Claim(last.other, last.port)]);
      TwoClaims(last);
      LinkClearIff(front, last);
      OneMoreLink(front, last);
    }
  }

  lemma OneMoreLink(front: seq<Link>, last: Link)
    ensures LinkPortsFree(front + [last]) <==>
      LinkPortsFree(front) && last.one != last.other && LinkClear(front, last)
  {
    var links := front + [last];
    assert forall i :: 0 <= i < |front| ==> links[i] == front[i];
    assert links[|front|] == last;
    if LinkPortsFree(links) {
      assert forall link :: link in front ==> link in links;
      assert last in links;
    }
  }

  ghost predicate PoolClear(pools: seq<Pool>, last: Pool) {
    forall pool, name :: pool in pools && name in pool.nodes && name in last.nodes ==>
      pool.listenPort != last.listenPort
  }

  lemma PoolClearIff(pools: seq<Pool>, last: Pool)
    ensures PoolClear(pools, last) <==>
      forall c :: !(c in PoolClaims(pools) && c in HostClaims(last.nodes, last.listenPort))
  {
    forall c
      ensures c in PoolClaims(pools) <==>
        exists pool :: pool in pools && c.node in pool.nodes && pool.listenPort == c.port
      ensures c in HostClaims(last.nodes, last.listenPort) <==> c.node in last.nodes && c.port == last.listenPort
    {
      PoolClaimed(pools, c);
      HostClaimed(last.nodes, last.listenPort, c);
    }
    hide PoolClaims, HostClaims;
    if !PoolClear(pools, last) {
      var pool, name :| pool in pools && name in pool.nodes && name in last.nodes && pool.listenPort == last.listenPort;
      assert Claim(name, last.listenPort) in PoolClaims(pools);
    }
  }

  lemma {:induction false} PoolsDistinct(pools: seq<Pool>)
    ensures NoDuplicates(PoolClaims(pools)) <==> PoolPortsFree(pools)
  {
    if pools == [] {
    } else {
      var front, last := pools[..|pools| - 1], pools[|pools| - 1];
      assert pools == front + [last];
      hide *;
      PoolsDistinct(front);
      PoolClaimsAre(pools);
      AppendDistinct(PoolClaims(front), HostClaims(last.nodes, last.listenPort));
      HostClaimed(last.nodes, last.listenPort, Claim("", 0));
      PoolClearIff(front, last);
      OneMorePool(front, last);
    }
  }

  ghost predicate PoolPortsFree(pools: seq<Pool>) {
    && (forall pool :: pool in pools ==> NoDuplicates(pool.nodes))
    && forall i, j, name :: 0 <= i < j < |pools| && name in pools[i].nodes && name in pools[j].nodes ==>
         pools[i].listenPort != pools[j].listenPort
  }

  lemma OneMorePool(front: seq<Pool>, last: Pool)
    ensures PoolPortsFree(front + [last]) <==>
      PoolPortsFree(front) && NoDuplicates(last.nodes) && PoolClear(front, last)
  {
    hide NoDuplicates;
    var pools := front + [last];
    assert forall i :: 0 <= i < |front| ==> pools[i] == front[i];
    assert pools[|front|] == last;
    if PoolPortsFree(pools) {
      assert forall pool :: pool in front ==> pool in pools;
      assert last in pools;
    }
  }

  ghost predicate LinksAndPoolsApart(t: Topology) {
    forall link, pool, name :: link in t.links && pool in t.pools && EndsAt(link, name) && name in pool.nodes ==>
      link.port != pool.listenPort
  }

  lemma ApartIff(t: Topology)
    ensures (forall c :: !(c in LinkClaims(t.links) && c in PoolClaims(t.pools))) <==> LinksAndPoolsApart(t)
  {
    forall c
      ensures c in LinkClaims(t.links) <==>
        exists link :: link in t.links && EndsAt(link, c.node) && link.port == c.port
      ensures c in PoolClaims(t.pools) <==>
        exists pool :: pool in t.pools && c.node in pool.nodes && pool.listenPort == c.port
    {
      LinkClaimed(t.links, c);
      PoolClaimed(t.pools, c);
    }
    hide LinkClaims, PoolClaims, EndsAt;
    if !LinksAndPoolsApart(t) {
      var link, pool, name :| link in t.links && pool in t.pools && EndsAt(link, name) && name in pool.nodes
        && link.port == pool.listenPort;
      assert Claim(name, link.port) in LinkClaims(t.links) && Claim(name, link.port) in PoolClaims(t.pools);
    }
  }

  lemma PortsAreFreeIff(t: Topology)
    requires forall link :: link in t.links ==> link.one != link.other
    ensures NoDuplicates(Claims(t)) <==> PortsAreFree(t)
  {
    AppendDistinct(LinkClaims(t.links), PoolClaims(t.pools));
    LinksDistinct(t.links);
    PoolsDistinct(t.pools);
    ApartIff(t);
    hide NoDuplicates, LinkClaims, PoolClaims, EndsAt;
    assert PortsAreFree(t) <==> LinkPortsFree(t.links) && LinksAndPoolsApart(t) && PoolPortsFree(t.pools);
  }

  lemma KnownIff(nodes: seq<Node>, name: string)
    ensures name in Names(nodes) <==> Known(nodes, name)
  {
    assert forall i :: 0 <= i < |nodes| ==> Names(nodes)[i] == nodes[i].name && nodes[i] in nodes;
  }

  lemma NodesIff(nodes: seq<Node>)
    ensures ValidNodes(nodes) <==> NodesAreDistinct(nodes)
  {
    assert forall i :: 0 <= i < |nodes| ==> nodes[i] in nodes;
    assert forall i :: 0 <= i < |nodes| ==> Names(nodes)[i] == nodes[i].name && NodeIds(nodes)[i] == nodes[i].nodeId;
  }

  lemma PoolsIff(pools: seq<Pool>, known: seq<string>)
    ensures ValidPools(pools, known) <==>
      PoolsAreDistinct(pools) && forall pool, name :: pool in pools && name in pool.nodes ==> name in known
  {
    assert forall i :: 0 <= i < |pools| ==> pools[i] in pools && PoolNames(pools)[i] == pools[i].name;
    forall pool: Pool
      ensures NoDuplicates(ClientKeys(pool.clients)) <==>
        forall i, j :: 0 <= i < j < |pool.clients| ==> pool.clients[i].publicKey != pool.clients[j].publicKey
    {
      assert forall i :: 0 <= i < |pool.clients| ==> ClientKeys(pool.clients)[i] == pool.clients[i].publicKey;
    }
    hide ClientKeys;
  }

  /** A topology is valid exactly when its nodes have distinct non-empty names and distinct ids that parse,
      every reference is to one of them, no link joins a node to itself, pools and the clients of a pool are
      distinct, and no node would listen twice on one port. */
  lemma ValidMeans(t: Topology)
    ensures Valid(t) <==>
      NodesAreDistinct(t.nodes) && ReferencesAreKnown(t) && PoolsAreDistinct(t.pools) && PortsAreFree(t)
  {
    var known := Names(t.nodes);
    NodesIff(t.nodes);
    PoolsIff(t.pools, known);
    forall name ensures name in known <==> Known(t.nodes, name) {
      KnownIff(t.nodes, name);
    }
    hide NodesAreDistinct, PoolsAreDistinct, PortsAreFree, ValidNodes, ValidPools, Claims, Known, Names, NoDuplicates;
    if forall link :: link in t.links ==> link.one != link.other {
      PortsAreFreeIff(t);
    }
  }
}
