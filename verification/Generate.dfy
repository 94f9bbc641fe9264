/** Two runs in a row: what the second renders from the file the first recorded into. */
module Generate {
  import opened Edit
  import opened Lists
  import opened MeshConfig
  import opened Render
  import opened Secrets
  import opened Topologies

  /** Two topologies that differ in their secrets alone. */
  ghost predicate SameButSecrets(a: Topology, b: Topology) {
    && a.global == b.global && a.bypass == b.bypass
    && |a.nodes| == |b.nodes| && |a.links| == |b.links| && |a.pools| == |b.pools|
    && (forall i :: 0 <= i < |a.nodes| ==> b.nodes[i] == a.nodes[i].(privateKey := b.nodes[i].privateKey))
    && (forall i :: 0 <= i < |a.links| ==> b.links[i] == a.links[i].(obfuscation := b.links[i].obfuscation))
    && forall i :: 0 <= i < |a.pools| ==>
      b.pools[i] == a.pools[i].(privateKey := b.pools[i].privateKey, obfuscation := b.pools[i].obfuscation)
  }

  lemma RecordedSameButSecrets(t: Topology, draws: Draws)
    requires SetsNine(draws) && DistinctPools(t.pools)
    ensures SameButSecrets(t, Recorded(t, MintedIn(t, draws)))
  {
    hide Recorded, MintedIn, OnlyAdds, DistinctPools, SetsNine;
    RecordOnlyAdds(t, draws);
  }

  lemma {:induction false} FindNodeSame(a: seq<Node>, b: seq<Node>, name: string)
    requires |a| == |b| && forall i :: 0 <= i < |a| ==> b[i] == a[i].(privateKey := b[i].privateKey)
    ensures FindNode(a, name).Some? <==> FindNode(b, name).Some?
    ensures FindNode(a, name).Some? ==>
      FindNode(b, name).value == FindNode(a, name).value.(privateKey := FindNode(b, name).value.privateKey)
  {
    if a == [] {
    } else {
      assert b[0] == a[0].(privateKey := b[0].privateKey);
      FindNodeSame(a[1..], b[1..], name);
    }
  }

  lemma {:induction false} MeshEntriesSame(
    a: Topology, b: Topology, addresses: seq<Render.Address>, key: string,
    links: seq<Link>, others: seq<Link>, node: string, s: ResolvedSecrets, derive: Derive)
    requires SameButSecrets(a, b) && |links| == |others|
    requires forall i :: 0 <= i < |links| ==> others[i] == links[i].(obfuscation := others[i].obfuscation)
    ensures MeshEntries(a, addresses, key, links, node, s, derive) ==
      MeshEntries(b, addresses, key, others, node, s, derive)
  {
    if links == [] {
    } else {
      hide SameButSecrets, FindNode, LinkKey;
      var n := |links| - 1;
      MeshEntriesSame(a, b, addresses, key, links[..n], others[..n], node, s, derive);
      var peer := PeerOf(links[n], node);
      assert others[n] == links[n].(obfuscation := others[n].obfuscation);
      if peer.Some? {
        SameNodes(a, b, peer.value);
      }
    }
  }

  lemma SameNodes(a: Topology, b: Topology, name: string)
    requires SameButSecrets(a, b)
    ensures FindNode(a.nodes, name).Some? <==> FindNode(b.nodes, name).Some?
    ensures FindNode(a.nodes, name).Some? ==>
      && FindNode(a.nodes, name).value.endpoint == FindNode(b.nodes, name).value.endpoint
      && FindNode(a.nodes, name).value.nodeId == FindNode(b.nodes, name).value.nodeId
  {
    FindNodeSame(a.nodes, b.nodes, name);
  }

  lemma {:induction false} PoolEntriesSame(pools: seq<Pool>, others: seq<Pool>, node: string, s: ResolvedSecrets)
    requires |pools| == |others|
    requires forall i :: 0 <= i < |pools| ==>
      others[i] == pools[i].(privateKey := others[i].privateKey, obfuscation := others[i].obfuscation)
    ensures PoolEntries(pools, node, s) == PoolEntries(others, node, s)
  {
    if pools == [] {
    } else {
      var n := |pools| - 1;
      PoolEntriesSame(pools[..n], others[..n], node, s);
      assert others[n] == pools[n].(privateKey := others[n].privateKey, obfuscation := others[n].obfuscation);
    }
  }

  lemma AwgInterfacesSame(a: Topology, b: Topology, c: Cluster, node: string, s: ResolvedSecrets, derive: Derive)
    requires SameButSecrets(a, b)
    ensures AwgInterfaces(a, c, node, s, derive) == AwgInterfaces(b, c, node, s, derive)
  {
    SameNodes(a, b, node);
    PoolEntriesSame(a.pools, b.pools, node, s);
    hide FindNode, Derived, MeshEntries, PoolEntries;
    assert MeshAddresses(a, c, node) == MeshAddresses(b, c, node);
    if MeshAddresses(a, c, node).Some? && node in s.nodeKeys {
      MeshEntriesSame(a, b, MeshAddresses(a, c, node).value, s.nodeKeys[node], a.links, b.links, node, s, derive);
    }
  }

  lemma ValidHasDistinctPools(t: Topology)
    requires Valid(t)
    ensures DistinctPools(t.pools)
  {
    hide LinkClaims, PoolClaims, ValidNodes, ValidLinks, ValidPool;
    assert forall i :: 0 <= i < |t.pools| ==> PoolNames(t.pools)[i] == t.pools[i].name;
  }

  lemma {:induction false} LinkClaimsSame(links: seq<Link>, others: seq<Link>)
    requires |links| == |others|
    requires forall i :: 0 <= i < |links| ==> others[i] == links[i].(obfuscation := others[i].obfuscation)
    ensures LinkClaims(links) == LinkClaims(others)
  {
    if links == [] {
    } else {
      var n := |links| - 1;
      LinkClaimsSame(links[..n], others[..n]);
      assert others[n] == links[n].(obfuscation := others[n].obfuscation);
    }
  }

  lemma {:induction false} PoolClaimsSame(pools: seq<Pool>, others: seq<Pool>)
    requires |pools| == |others|
    requires forall i :: 0 <= i < |pools| ==>
      others[i] == pools[i].(privateKey := others[i].privateKey, obfuscation := others[i].obfuscation)
    ensures PoolClaims(pools) == PoolClaims(others)
  {
    if pools == [] {
    } else {
      var n := |pools| - 1;
      PoolClaimsSame(pools[..n], others[..n]);
      assert others[n] == pools[n].(privateKey := others[n].privateKey, obfuscation := others[n].obfuscation);
    }
  }

  /** Validity does not look at secrets. */
  lemma ValidSame(a: Topology, b: Topology)
    requires SameButSecrets(a, b) && Valid(a)
    ensures Valid(b)
  {
    LinkClaimsSame(a.links, b.links);
    PoolClaimsSame(a.pools, b.pools);
    hide LinkClaims, PoolClaims, NoDuplicates, ClientKeys;
    assert Names(a.nodes) == Names(b.nodes);
    assert NodeIds(a.nodes) == NodeIds(b.nodes);
    assert PoolNames(a.pools) == PoolNames(b.pools);
  }

  /** A second run over the recorded file renders for every node exactly what the first did, whatever its
      generators would draw, and mints nothing; the file is still valid. */
  lemma SecondRunRendersTheSame(t: Topology, c: Cluster, node: string, draws: Draws, again: Draws, derive: Derive)
    requires Valid(t) && SetsNine(draws) && SetsNine(again)
    ensures var recorded := Recorded(t, MintedIn(t, draws));
      && Valid(recorded)
      && MintedIn(recorded, again) == NOTHING
      && AwgInterfaces(recorded, c, node, Resolved(recorded, again), derive) ==
        AwgInterfaces(t, c, node, Resolved(t, draws), derive)
  {
    ValidHasDistinctPools(t);
    hide *;
    var recorded := Recorded(t, MintedIn(t, draws));
    RecordedSameButSecrets(t, draws);
    RecordReachesFixpoint(t, draws, again);
    ValidSame(t, recorded);
    AwgInterfacesSame(t, recorded, c, node, Resolved(t, draws), derive);
  }
}
