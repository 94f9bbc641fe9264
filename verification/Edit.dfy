/** Writing minted secrets into the slipmesh file, and why the next run mints nothing. */
module Edit {
  import opened Secrets
  import opened Topologies
  import opened Wrappers

  // ---- Filling in ----

  /** An entry's fields, with the generated ones that were minted taken over. */
  function Filled(current: Obfuscation, generated: Obfuscation): Obfuscation {
    current + OnlyIn(generated, Nine())
  }

  function OnlyIn(m: Obfuscation, fields: set<Field>): Obfuscation {
    map f | f in m && f in fields :: m[f]
  }

  method Fill(current: Obfuscation, generated: Obfuscation) returns (filled: Obfuscation)
    ensures filled == Filled(current, generated)
  {
    hide OnlyIn, Nine;
    filled := current;
    var fields := Nine();
    OneMore(generated, {}, {});
    assert Nine() - fields == {};
    while fields != {}
      invariant fields <= Nine()
      invariant filled == current + OnlyIn(generated, Nine() - fields)
    {
      var f :| f in fields;
      OneMore(generated, Nine() - fields, {f});
      assert Nine() - (fields - {f}) == (Nine() - fields) + {f};
      if f in generated {
        filled := filled[f := generated[f]];
      }
      fields := fields - {f};
    }
    assert Nine() - fields == Nine();
  }

  lemma OneMore(m: Obfuscation, fields: set<Field>, more: set<Field>)
    ensures OnlyIn(m, {}) == map[]
    ensures OnlyIn(m, fields + more) == OnlyIn(m, fields) + OnlyIn(m, more)
    ensures forall f :: more == {f} ==> OnlyIn(m, more) == if f in m then map[f := m[f]] else map[]
  {}

  // ---- What a record leaves ----

  function RecordedNodes(nodes: seq<Node>, minted: seq<NodeMinted>): (r: seq<Node>)
    ensures |r| == |nodes|
  {
    if minted == [] then nodes
    else RecordNode(RecordedNodes(nodes, minted[..|minted| - 1]), minted[|minted| - 1])
  }

  function RecordNode(nodes: seq<Node>, m: NodeMinted): (r: seq<Node>)
    ensures |r| == |nodes|
  {
    if m.node < |nodes| then nodes[m.node := nodes[m.node].(privateKey := Some(m.key))] else nodes
  }

  function RecordedLinks(links: seq<Link>, minted: seq<LinkMinted>): (r: seq<Link>)
    ensures |r| == |links|
  {
    if minted == [] then links
    else RecordLink(RecordedLinks(links, minted[..|minted| - 1]), minted[|minted| - 1])
  }

  function RecordLink(links: seq<Link>, m: LinkMinted): (r: seq<Link>)
    ensures |r| == |links|
  {
    if m.link < |links| then
      links[m.link := links[m.link].(obfuscation := Filled(links[m.link].obfuscation, m.obfuscation))]
    else links
  }

  /** Where the first pool of a name is, past the end for none. */
  function PoolAt(pools: seq<Pool>, name: string): (i: nat)
    ensures i <= |pools|
    ensures i < |pools| ==> pools[i].name == name
    ensures forall j :: 0 <= j < i ==> pools[j].name != name
  {
    if pools == [] || pools[0].name == name then 0 else 1 + PoolAt(pools[1..], name)
  }

  function RecordedPool(pool: Pool, minted: PoolMinted): Pool {
    var keyed := if minted.privateKey.Some? then pool.(privateKey := minted.privateKey) else pool;
    if minted.obfuscation.None? then keyed
    else keyed.(obfuscation := Filled(keyed.obfuscation, minted.obfuscation.value))
  }

  function RecordedPools(pools: seq<Pool>, minted: seq<PoolMinted>): (r: seq<Pool>)
    ensures SameNames(r, pools)
  {
    if minted == [] then pools
    else RecordPoolIn(RecordedPools(pools, minted[..|minted| - 1]), minted[|minted| - 1])
  }

  function RecordPoolIn(pools: seq<Pool>, m: PoolMinted): (r: seq<Pool>)
    ensures SameNames(r, pools)
  {
    var i := PoolAt(pools, m.name);
    if i < |pools| then pools[i := RecordedPool(pools[i], m)] else pools
  }

  function Recorded(t: Topology, minted: Minted): Topology {
    t.(nodes := RecordedNodes(t.nodes, minted.nodeKeys),
       links := RecordedLinks(t.links, minted.linkObfuscation),
       pools := RecordedPools(t.pools, minted.pools))
  }

  ghost predicate FitsNodes(nodes: seq<Node>, minted: seq<NodeMinted>) {
    forall k :: 0 <= k < |minted| ==> minted[k].node < |nodes|
  }

  ghost predicate FitsLinks(links: seq<Link>, minted: seq<LinkMinted>) {
    forall k :: 0 <= k < |minted| ==> minted[k].link < |links|
  }

  ghost predicate FitsPools(pools: seq<Pool>, minted: seq<PoolMinted>) {
    forall k :: 0 <= k < |minted| ==> HasPool(pools, minted[k].name)
  }

  /** Everything minted belongs to an entry of the topology. */
  ghost predicate Fits(t: Topology, minted: Minted) {
    && FitsNodes(t.nodes, minted.nodeKeys)
    && FitsLinks(t.links, minted.linkObfuscation)
    && FitsPools(t.pools, minted.pools)
  }

  predicate HasPool(pools: seq<Pool>, name: string) {
    PoolAt(pools, name) < |pools|
  }

  ghost predicate SameNames(a: seq<Pool>, b: seq<Pool>) {
    |a| == |b| && forall i :: 0 <= i < |a| ==> a[i].name == b[i].name
  }

  lemma SameNamesSamePlace(a: seq<Pool>, b: seq<Pool>, name: string)
    requires SameNames(a, b)
    ensures PoolAt(a, name) == PoolAt(b, name)
  {
    hide PoolAt;
    var i, j := PoolAt(a, name), PoolAt(b, name);
    assert i < |a| ==> b[i].name == name;
    assert j < |b| ==> a[j].name == name;
  }

  lemma RecordOnePool(pools: seq<Pool>, m: PoolMinted)
    requires HasPool(pools, m.name)
    ensures RecordPoolIn(pools, m) == pools[PoolAt(pools, m.name) := RecordedPool(pools[PoolAt(pools, m.name)], m)]
  {}

  lemma PoolsPrefix(pools: seq<Pool>, minted: seq<PoolMinted>, k: nat)
    requires k < |minted|
    ensures RecordedPools(pools, minted[..k + 1]) == RecordPoolIn(RecordedPools(pools, minted[..k]), minted[k])
    ensures HasPool(pools, minted[k].name) <==> HasPool(RecordedPools(pools, minted[..k]), minted[k].name)
    ensures FitsPools(pools, minted[..k + 1]) <==> FitsPools(pools, minted[..k]) && HasPool(pools, minted[k].name)
    ensures FitsPools(pools, minted) ==> HasPool(pools, minted[k].name)
  {
    hide RecordPoolIn, PoolAt;
    assert minted[..k + 1] == minted[..k] + [minted[k]];
    PoolPush(pools, minted[..k], minted[k]);
    SameNamesSamePlace(RecordedPools(pools, minted[..k]), pools, minted[k].name);
  }

  // ---- The file ----

  /** The slipmesh file: the fields that recording writes, and the rest, which it does not. */
  class SlipmeshYaml {
    const global: Obfuscation
    const bypass: seq<string>
    var nodes: seq<Node>
    var links: seq<Link>
    var pools: seq<Pool>

    constructor (t: Topology)
      ensures Contents() == t
    {
      global, bypass, nodes, links, pools := t.global, t.bypass, t.nodes, t.links, t.pools;
    }

    function Contents(): Topology
      reads this
    {
      Topology(global, nodes, links, pools, bypass)
    }

    /** Writes nodes and links in one edit, then pool by pool; stops at the first value that has no
        place. */
    method Record(minted: Minted) returns (ok: bool)
      modifies this
      ensures ok <==> Fits(old(Contents()), minted)
      ensures ok ==> Contents() == Recorded(old(Contents()), minted)
    {
      hide RecordedNodes, RecordedLinks, RecordedPools, RecordPoolIn, FitsNodes, FitsLinks, SameNames;
      var t := Contents();
      NothingRecorded(t);
      if minted.nodeKeys != [] || minted.linkObfuscation != [] {
        ok := RecordNetwork(minted);
        if !ok {
          return;
        }
      }
      for k := 0 to |minted.pools|
        invariant nodes == RecordedNodes(t.nodes, minted.nodeKeys)
        invariant links == RecordedLinks(t.links, minted.linkObfuscation)
        invariant pools == RecordedPools(t.pools, minted.pools[..k])
        invariant FitsNodes(t.nodes, minted.nodeKeys) && FitsLinks(t.links, minted.linkObfuscation)
        invariant FitsPools(t.pools, minted.pools[..k])
      {
        PoolsPrefix(t.pools, minted.pools, k);
        var i := PoolAt(pools, minted.pools[k].name);
        if i == |pools| {
          return false;
        }
        var pool := RecordPool(pools[i], minted.pools[k]);
        RecordOnePool(pools, minted.pools[k]);
        pools := pools[i := pool];
      }
      assert minted.pools[..|minted.pools|] == minted.pools;
      ok := true;
    }

    method RecordNetwork(minted: Minted) returns (ok: bool)
      modifies this`nodes, this`links
      ensures ok <==> FitsNodes(old(nodes), minted.nodeKeys) && FitsLinks(old(links), minted.linkObfuscation)
      ensures nodes == if ok then RecordedNodes(old(nodes), minted.nodeKeys) else old(nodes)
      ensures links == if ok then RecordedLinks(old(links), minted.linkObfuscation) else old(links)
    {
      hide *;
      var networkNodes: seq<Node>, networkLinks: seq<Link>;
      ok, networkNodes := RecordNodes(nodes, minted.nodeKeys);
      if !ok {
        return;
      }
      ok, networkLinks := RecordLinks(links, minted.linkObfuscation);
      if !ok {
        return;
      }
      nodes, links := networkNodes, networkLinks;
    }

    static method RecordNodes(nodes: seq<Node>, minted: seq<NodeMinted>) returns (ok: bool, recorded: seq<Node>)
      ensures ok <==> FitsNodes(nodes, minted)
      ensures ok ==> recorded == RecordedNodes(nodes, minted)
    {
      recorded := nodes;
      for k := 0 to |minted|
        invariant recorded == RecordedNodes(nodes, minted[..k])
        invariant FitsNodes(nodes, minted[..k])
      {
        assert minted[..k + 1][..k] == minted[..k];
        var m := minted[k];
        if m.node >= |recorded| {
          return false, recorded;
        }
        recorded := recorded[m.node := recorded[m.node].(privateKey := Some(m.key))];
      }
      assert minted[..|minted|] == minted;
      ok := true;
    }

    static method RecordLinks(links: seq<Link>, minted: seq<LinkMinted>) returns (ok: bool, recorded: seq<Link>)
      ensures ok <==> FitsLinks(links, minted)
      ensures ok ==> recorded == RecordedLinks(links, minted)
    {
      hide Filled;
      recorded := links;
      for k := 0 to |minted|
        invariant recorded == RecordedLinks(links, minted[..k])
        invariant FitsLinks(links, minted[..k])
      {
        assert minted[..k + 1][..k] == minted[..k];
        var m := minted[k];
        if m.link >= |recorded| {
          return false, recorded;
        }
        var filled := Fill(recorded[m.link].obfuscation, m.obfuscation);
        recorded := recorded[m.link := recorded[m.link].(obfuscation := filled)];
      }
      assert minted[..|minted|] == minted;
      ok := true;
    }

    static method RecordPool(pool: Pool, minted: PoolMinted) returns (recorded: Pool)
      ensures recorded == RecordedPool(pool, minted)
    {
      recorded := pool;
      if minted.privateKey.Some? {
        recorded := recorded.(privateKey := minted.privateKey);
      }
      if minted.obfuscation.Some? {
        var filled := Fill(recorded.obfuscation, minted.obfuscation.value);
        recorded := recorded.(obfuscation := filled);
      }
    }

    /** One run: resolves the topology and records what was minted. A dry run that would have to mint is
        refused, and changes nothing. */
    method Settle(draws: Draws, dryRun: bool) returns (secrets: Option<ResolvedSecrets>)
      requires SetsNine(draws) && DistinctPools(pools)
      modifies this
      ensures secrets.None? <==> dryRun && MintedIn(old(Contents()), draws) != NOTHING
      ensures secrets.Some? ==> secrets.value == Resolved(old(Contents()), draws)
      ensures Contents() == if secrets.Some? then Settled(old(Contents()), draws) else old(Contents())
    {
      hide Resolved, MintedIn, Recorded, Fits, Settled;
      var resolved, minted := Resolve(Contents(), draws);
      EmptyIffNothing(Contents(), draws);
      RecordedIsSettled(Contents(), draws);
      if minted.routes == [] {
        NothingRecorded(Contents());
        return Some(resolved);
      }
      if dryRun {
        return None;
      }
      var ok := Record(minted);
      return Some(resolved);
    }
  }

  lemma NothingRecorded(t: Topology)
    ensures Recorded(t, NOTHING) == t
    ensures RecordedNodes(t.nodes, []) == t.nodes && FitsNodes(t.nodes, [])
    ensures RecordedLinks(t.links, []) == t.links && FitsLinks(t.links, [])
    ensures RecordedPools(t.pools, []) == t.pools && FitsPools(t.pools, [])
  {}

  // ---- The fixpoint ----

  ghost predicate DistinctPools(pools: seq<Pool>) {
    forall i, j :: 0 <= i < j < |pools| ==> pools[i].name != pools[j].name
  }

  function SettledNode(node: Node, drawn: string): Node {
    node.(privateKey := Some(KeyOf(node.privateKey, drawn)))
  }

  /** An entry's own fields, and those that neither it nor the topology sets. */
  function SettledObfuscation(plain: bool, specific: Obfuscation, global: Obfuscation, drawn: Obfuscation)
    : Obfuscation
  {
    if plain then specific else specific + Lacking(specific, global, drawn)
  }

  function SettledLink(link: Link, global: Obfuscation, drawn: Obfuscation): Link {
    link.(obfuscation := SettledObfuscation(link.plain, link.obfuscation, global, drawn))
  }

  function SettledPool(pool: Pool, global: Obfuscation, key: string, drawn: Obfuscation): Pool {
    pool.(privateKey := Some(KeyOf(pool.privateKey, key)),
          obfuscation := SettledObfuscation(pool.plain, pool.obfuscation, global, drawn))
  }

  function SettledNodes(nodes: seq<Node>, draws: Draws, k: nat): seq<Node> {
    seq(|nodes|, i requires 0 <= i < |nodes| => if i < k then SettledNode(nodes[i], draws.nodeKey(i)) else nodes[i])
  }

  function SettledLinks(links: seq<Link>, global: Obfuscation, draws: Draws, k: nat): seq<Link> {
    seq(|links|, i requires 0 <= i < |links| =>
      if i < k then SettledLink(links[i], global, draws.link(i)) else links[i])
  }

  function SettledPools(pools: seq<Pool>, global: Obfuscation, draws: Draws, k: nat): seq<Pool> {
    seq(|pools|, i requires 0 <= i < |pools| =>
      if i < k then SettledPool(pools[i], global, draws.poolKey(i), draws.pool(i)) else pools[i])
  }

  /** Every entry with the secrets it lacked. */
  function Settled(t: Topology, draws: Draws): Topology {
    t.(nodes := SettledNodes(t.nodes, draws, |t.nodes|),
       links := SettledLinks(t.links, t.global, draws, |t.links|),
       pools := SettledPools(t.pools, t.global, draws, |t.pools|))
  }

  /** One more node key recorded. */
  lemma NodePush(nodes: seq<Node>, minted: seq<NodeMinted>, m: NodeMinted)
    requires m.node < |nodes|
    ensures var before := RecordedNodes(nodes, minted);
      RecordedNodes(nodes, minted + [m]) == before[m.node := before[m.node].(privateKey := Some(m.key))]
    ensures FitsNodes(nodes, minted) ==> FitsNodes(nodes, minted + [m])
  {
    assert (minted + [m])[..|minted|] == minted;
  }

  lemma LinkPush(links: seq<Link>, minted: seq<LinkMinted>, m: LinkMinted)
    requires m.link < |links|
    ensures var before := RecordedLinks(links, minted);
      RecordedLinks(links, minted + [m]) ==
        before[m.link := before[m.link].(obfuscation := Filled(before[m.link].obfuscation, m.obfuscation))]
    ensures FitsLinks(links, minted) ==> FitsLinks(links, minted + [m])
  {
    hide Filled;
    assert (minted + [m])[..|minted|] == minted;
  }

  lemma PoolPush(pools: seq<Pool>, minted: seq<PoolMinted>, m: PoolMinted)
    ensures RecordedPools(pools, minted + [m]) == RecordPoolIn(RecordedPools(pools, minted), m)
    ensures FitsPools(pools, minted) && HasPool(pools, m.name) ==> FitsPools(pools, minted + [m])
  {
    hide RecordPoolIn, HasPool;
    assert (minted + [m])[..|minted|] == minted;
  }

  lemma Unchanged<T>(s: seq<T>, i: nat)
    requires i < |s|
    ensures s[i := s[i]] == s
  {}

  lemma NodeStep(nodes: seq<Node>, draws: Draws, i: nat)
    requires i < |nodes|
    ensures SettledNodes(nodes, draws, i + 1) ==
      SettledNodes(nodes, draws, i)[i := SettledNode(nodes[i], draws.nodeKey(i))]
    ensures SettledNodes(nodes, draws, i)[i] == nodes[i]
    ensures MintedNodes(nodes[..i + 1], draws) ==
      if nodes[i].privateKey.Some? then MintedNodes(nodes[..i], draws)
      else MintedNodes(nodes[..i], draws) + [NodeMinted(i, draws.nodeKey(i))]
  {
    hide SettledNode;
    assert nodes[..i + 1][..i] == nodes[..i];
  }

  lemma {:induction false} NodesSettle(nodes: seq<Node>, draws: Draws, k: nat)
    requires k <= |nodes|
    ensures RecordedNodes(nodes, MintedNodes(nodes[..k], draws)) == SettledNodes(nodes, draws, k)
    ensures FitsNodes(nodes, MintedNodes(nodes[..k], draws))
  {
    if k == 0 {
      assert nodes[..0] == [];
      assert SettledNodes(nodes, draws, 0) == nodes;
    } else {
      hide RecordedNodes, MintedNodes, SettledNodes, FitsNodes;
      var i := k - 1;
      NodesSettle(nodes, draws, i);
      NodeStep(nodes, draws, i);
      Unchanged(SettledNodes(nodes, draws, i), i);
      if nodes[i].privateKey.None? {
        NodePush(nodes, MintedNodes(nodes[..i], draws), NodeMinted(i, draws.nodeKey(i)));
      }
    }
  }

  lemma FilledIsSettled(plain: bool, specific: Obfuscation, global: Obfuscation, drawn: Obfuscation)
    ensures drawn.Keys == Nine() ==> (SettledObfuscation(plain, specific, global, drawn) ==
      var minted := MintedFor(plain, specific, global, drawn);
      if minted.Some? then Filled(specific, minted.value) else specific)
  {}

  lemma LinkStep(links: seq<Link>, global: Obfuscation, draws: Draws, i: nat)
    requires i < |links|
    ensures SettledLinks(links, global, draws, i + 1) ==
      SettledLinks(links, global, draws, i)[i := SettledLink(links[i], global, draws.link(i))]
    ensures SettledLinks(links, global, draws, i)[i] == links[i]
    ensures var before, minted := MintedLinks(links[..i], global, draws), MintedOfLink(links[i], global, draws.link(i));
      MintedLinks(links[..i + 1], global, draws) ==
        if minted.Some? then before + [LinkMinted(i, minted.value)] else before
  {
    hide SettledLink, MintedOfLink;
    assert links[..i + 1][..i] == links[..i];
  }

  lemma LinkSettles(link: Link, global: Obfuscation, drawn: Obfuscation)
    requires drawn.Keys == Nine()
    ensures SettledLink(link, global, drawn) ==
      var minted := MintedOfLink(link, global, drawn);
      if minted.Some? then link.(obfuscation := Filled(link.obfuscation, minted.value)) else link
  {
    hide Filled, SettledObfuscation, MintedFor, Nine;
    FilledIsSettled(link.plain, link.obfuscation, global, drawn);
  }

  lemma {:induction false} LinksSettle(links: seq<Link>, global: Obfuscation, draws: Draws, k: nat)
    requires k <= |links| && SetsNine(draws)
    ensures RecordedLinks(links, MintedLinks(links[..k], global, draws)) == SettledLinks(links, global, draws, k)
    ensures FitsLinks(links, MintedLinks(links[..k], global, draws))
  {
    if k == 0 {
      assert links[..0] == [];
      assert SettledLinks(links, global, draws, 0) == links;
    } else {
      hide RecordedLinks, MintedLinks, SettledLinks, SettledLink, MintedOfLink, Filled, FitsLinks, Nine;
      var i := k - 1;
      LinksSettle(links, global, draws, i);
      LinkStep(links, global, draws, i);
      LinkSettles(links[i], global, draws.link(i));
      Unchanged(SettledLinks(links, global, draws, i), i);
      var minted := MintedOfLink(links[i], global, draws.link(i));
      if minted.Some? {
        LinkPush(links, MintedLinks(links[..i], global, draws), LinkMinted(i, minted.value));
      }
    }
  }

  lemma RecordedPoolSettles(pool: Pool, global: Obfuscation, key: string, drawn: Obfuscation)
    requires drawn.Keys == Nine()
    ensures MintedOfPool(pool, global, key, drawn).name == pool.name
    ensures RecordedPool(pool, MintedOfPool(pool, global, key, drawn)) == SettledPool(pool, global, key, drawn)
    ensures var minted := MintedOfPool(pool, global, key, drawn);
      minted.privateKey.None? && minted.obfuscation.None? ==> SettledPool(pool, global, key, drawn) == pool
  {
    hide Filled, SettledObfuscation, MintedFor;
    FilledIsSettled(pool.plain, pool.obfuscation, global, drawn);
  }

  lemma PoolAtIs(pools: seq<Pool>, i: nat)
    requires DistinctPools(pools) && i < |pools|
    ensures PoolAt(pools, pools[i].name) == i
  {
    hide PoolAt;
    var at := PoolAt(pools, pools[i].name);
  }

  lemma PoolStep(pools: seq<Pool>, global: Obfuscation, draws: Draws, i: nat)
    requires i < |pools|
    ensures SettledPools(pools, global, draws, i + 1) ==
      SettledPools(pools, global, draws, i)[i := SettledPool(pools[i], global, draws.poolKey(i), draws.pool(i))]
    ensures SettledPools(pools, global, draws, i)[i] == pools[i]
    ensures var before := MintedPools(pools[..i], global, draws);
      var minted := MintedOfPool(pools[i], global, draws.poolKey(i), draws.pool(i));
      MintedPools(pools[..i + 1], global, draws) ==
        if minted.privateKey.Some? || minted.obfuscation.Some? then before + [minted] else before
  {
    hide SettledPool, MintedOfPool;
    assert pools[..i + 1][..i] == pools[..i];
  }

  lemma {:induction false} PoolsSettle(pools: seq<Pool>, global: Obfuscation, draws: Draws, k: nat)
    requires k <= |pools| && SetsNine(draws) && DistinctPools(pools)
    ensures RecordedPools(pools, MintedPools(pools[..k], global, draws)) == SettledPools(pools, global, draws, k)
    ensures FitsPools(pools, MintedPools(pools[..k], global, draws))
  {
    if k == 0 {
      assert pools[..0] == [];
    } else {
      hide RecordedPools, MintedPools, SettledPools, PoolAt, RecordedPool, SettledPool, MintedOfPool, Nine,
        DistinctPools;
      hide SameNames, RecordPoolIn;
      var i := k - 1;
      PoolsSettle(pools, global, draws, i);
      PoolStep(pools, global, draws, i);
      PoolAtIs(pools, i);
      RecordedPoolSettles(pools[i], global, draws.poolKey(i), draws.pool(i));
      var before := MintedPools(pools[..i], global, draws);
      var minted := MintedOfPool(pools[i], global, draws.poolKey(i), draws.pool(i));
      var recorded := RecordedPools(pools, before);
      SameNamesSamePlace(recorded, pools, pools[i].name);
      RecordOnePool(recorded, minted);
      Unchanged(recorded, i);
      if minted.privateKey.Some? || minted.obfuscation.Some? {
        PoolPush(pools, before, minted);
      }
    }
  }

  /** Recording what a topology lacked gives every entry the secrets it lacked. */
  lemma RecordedIsSettled(t: Topology, draws: Draws)
    requires SetsNine(draws) && DistinctPools(t.pools)
    ensures Fits(t, MintedIn(t, draws))
    ensures Recorded(t, MintedIn(t, draws)) == Settled(t, draws)
  {
    hide SettledNodes, SettledLinks, SettledPools, HasPool;
    NodesSettle(t.nodes, draws, |t.nodes|);
    LinksSettle(t.links, t.global, draws, |t.links|);
    PoolsSettle(t.pools, t.global, draws, |t.pools|);
    assert t.nodes[..|t.nodes|] == t.nodes;
    assert t.links[..|t.links|] == t.links;
    assert t.pools[..|t.pools|] == t.pools;
  }

  lemma LayersStay(specific: Obfuscation, global: Obfuscation, drawn: Obfuscation, again: Obfuscation)
    requires drawn.Keys == again.Keys
    ensures Lacking(specific + Lacking(specific, global, drawn), global, again) == map[]
    ensures Layered(specific + Lacking(specific, global, drawn), global, again) == Layered(specific, global, drawn)
  {
    var l, m := Layered(specific + Lacking(specific, global, drawn), global, again), Layered(specific, global, drawn);
    assert l.Keys == m.Keys;
    assert forall f :: f in m ==> l[f] == m[f];
  }

  /** A settled entry lacks nothing, whatever would be drawn for it, and resolves to what it resolved to
      before. */
  lemma SettledObfuscationStays(plain: bool, specific: Obfuscation, global: Obfuscation, drawn: Obfuscation,
                                again: Obfuscation)
    requires drawn.Keys == again.Keys
    ensures var settled := SettledObfuscation(plain, specific, global, drawn);
      && MintedFor(plain, settled, global, again) == None
      && ObfuscationFor(plain, settled, global, again) == ObfuscationFor(plain, specific, global, drawn)
  {
    hide Layered, Lacking;
    LayersStay(specific, global, drawn, again);
  }

  lemma {:induction false} NodesStay(nodes: seq<Node>, settled: seq<Node>, draws: Draws, again: Draws)
    requires |settled| == |nodes|
    requires forall i :: 0 <= i < |nodes| ==> settled[i] == SettledNode(nodes[i], draws.nodeKey(i))
    ensures MintedNodes(settled, again) == [] && NodeRoutes(settled) == []
    ensures NodeKeys(settled, again) == NodeKeys(nodes, draws)
  {
    if nodes == [] {
    } else {
      NodesStay(nodes[..|nodes| - 1], settled[..|nodes| - 1], draws, again);
    }
  }

  lemma {:induction false} LinksStay(links: seq<Link>, settled: seq<Link>, global: Obfuscation, draws: Draws,
                                     again: Draws)
    requires |settled| == |links| && SetsNine(draws) && SetsNine(again)
    requires forall i :: 0 <= i < |links| ==> settled[i] == SettledLink(links[i], global, draws.link(i))
    ensures MintedLinks(settled, global, again) == [] && LinkRoutes(settled, global, again) == []
    ensures LinkObfuscations(settled, global, again) == LinkObfuscations(links, global, draws)
  {
    hide MintedFor, ObfuscationFor, SettledObfuscation, LinkKey, Nine;
    if links == [] {
    } else {
      var i := |links| - 1;
      LinksStay(links[..i], settled[..i], global, draws, again);
      SettledObfuscationStays(links[i].plain, links[i].obfuscation, global, draws.link(i), again.link(i));
    }
  }

  lemma {:induction false} PoolsStay(pools: seq<Pool>, settled: seq<Pool>, global: Obfuscation, draws: Draws,
                                     again: Draws)
    requires |settled| == |pools| && SetsNine(draws) && SetsNine(again)
    requires forall i :: 0 <= i < |pools| ==>
      settled[i] == SettledPool(pools[i], global, draws.poolKey(i), draws.pool(i))
    ensures MintedPools(settled, global, again) == [] && PoolRoutes(settled, global, again) == []
    ensures PoolKeys(settled, again) == PoolKeys(pools, draws)
    ensures PoolObfuscations(settled, global, again) == PoolObfuscations(pools, global, draws)
  {
    hide MintedFor, ObfuscationFor, SettledObfuscation, Nine;
    if pools == [] {
    } else {
      var i := |pools| - 1;
      PoolsStay(pools[..i], settled[..i], global, draws, again);
      SettledObfuscationStays(pools[i].plain, pools[i].obfuscation, global, draws.pool(i), again.pool(i));
    }
  }

  lemma SettledEntries(t: Topology, draws: Draws)
    ensures var s := Settled(t, draws);
      && s == t.(nodes := s.nodes, links := s.links, pools := s.pools)
      && |s.nodes| == |t.nodes| && |s.links| == |t.links| && |s.pools| == |t.pools|
      && (forall i :: 0 <= i < |t.nodes| ==> s.nodes[i] == SettledNode(t.nodes[i], draws.nodeKey(i)))
      && (forall i :: 0 <= i < |t.links| ==> s.links[i] == SettledLink(t.links[i], t.global, draws.link(i)))
      && forall i :: 0 <= i < |t.pools| ==>
        s.pools[i] == SettledPool(t.pools[i], t.global, draws.poolKey(i), draws.pool(i))
  {
    hide SettledNode, SettledLink, SettledPool;
  }

  /** After a run has recorded what it minted, the next run mints nothing and has the same secrets for
      every node, link and pool, whatever its generators would have drawn. */
  lemma RecordReachesFixpoint(t: Topology, draws: Draws, again: Draws)
    requires SetsNine(draws) && SetsNine(again) && DistinctPools(t.pools)
    ensures var recorded := Recorded(t, MintedIn(t, draws));
      && MintedIn(recorded, again) == NOTHING
      && Resolved(recorded, again) == Resolved(t, draws)
  {
    RecordedIsSettled(t, draws);
    SettledIsFixpoint(t, draws, again);
  }

  lemma SettledIsFixpoint(t: Topology, draws: Draws, again: Draws)
    requires SetsNine(draws) && SetsNine(again)
    ensures MintedIn(Settled(t, draws), again) == NOTHING
    ensures Resolved(Settled(t, draws), again) == Resolved(t, draws)
  {
    var s := Settled(t, draws);
    SettledEntries(t, draws);
    hide *;
    NodesStay(t.nodes, s.nodes, draws, again);
    LinksStay(t.links, s.links, t.global, draws, again);
    PoolsStay(t.pools, s.pools, t.global, draws, again);
    NothingIs(s, again);
    ResolvedIs(s, t, again, draws);
  }

  lemma NothingIs(t: Topology, draws: Draws)
    ensures (&& MintedNodes(t.nodes, draws) == [] && NodeRoutes(t.nodes) == []
             && MintedLinks(t.links, t.global, draws) == [] && LinkRoutes(t.links, t.global, draws) == []
             && MintedPools(t.pools, t.global, draws) == [] && PoolRoutes(t.pools, t.global, draws) == [])
      ==> MintedIn(t, draws) == NOTHING
  {}

  lemma ResolvedIs(s: Topology, t: Topology, again: Draws, draws: Draws)
    ensures (&& NodeKeys(s.nodes, again) == NodeKeys(t.nodes, draws)
             && LinkObfuscations(s.links, s.global, again) == LinkObfuscations(t.links, t.global, draws)
             && PoolKeys(s.pools, again) == PoolKeys(t.pools, draws)
             && PoolObfuscations(s.pools, s.global, again) == PoolObfuscations(t.pools, t.global, draws))
      ==> Resolved(s, again) == Resolved(t, draws)
  {}

  // ---- What recording leaves alone ----

  /** What an entry set stays, what is new the generator set, and nothing the topology sets is copied
      down. */
  ghost predicate OnlyAdds(before: Obfuscation, after: Obfuscation, global: Obfuscation) {
    && before.Keys <= after.Keys
    && (forall f :: f in before ==> after[f] == before[f])
    && (forall f :: f in after && f !in before ==> f in Nine() && f !in global)
  }

  ghost predicate NodeOnlyAdds(before: Node, after: Node) {
    && after == before.(privateKey := after.privateKey)
    && (before.privateKey.Some? ==> after == before)
  }

  ghost predicate LinkOnlyAdds(before: Link, after: Link, global: Obfuscation) {
    && after == before.(obfuscation := after.obfuscation)
    && OnlyAdds(before.obfuscation, after.obfuscation, global)
    && (before.plain ==> after == before)
  }

  ghost predicate PoolOnlyAdds(before: Pool, after: Pool, global: Obfuscation) {
    && after == before.(privateKey := after.privateKey, obfuscation := after.obfuscation)
    && (before.privateKey.Some? ==> after.privateKey == before.privateKey)
    && OnlyAdds(before.obfuscation, after.obfuscation, global)
    && (before.plain ==> after.obfuscation == before.obfuscation)
  }

  /** Every entry is as it was but for its own secrets, and of those only what was unset is new. A plain
      entry gets no obfuscation. */
  lemma RecordOnlyAdds(t: Topology, draws: Draws)
    requires SetsNine(draws) && DistinctPools(t.pools)
    ensures var r := Recorded(t, MintedIn(t, draws));
      && r == t.(nodes := r.nodes, links := r.links, pools := r.pools)
      && |r.nodes| == |t.nodes| && |r.links| == |t.links| && |r.pools| == |t.pools|
      && (forall i :: 0 <= i < |t.nodes| ==> NodeOnlyAdds(t.nodes[i], r.nodes[i]))
      && (forall i :: 0 <= i < |t.links| ==> LinkOnlyAdds(t.links[i], r.links[i], t.global))
      && forall i :: 0 <= i < |t.pools| ==> PoolOnlyAdds(t.pools[i], r.pools[i], t.global)
  {
    hide *;
    var s := Settled(t, draws);
    RecordedIsSettled(t, draws);
    SettledEntries(t, draws);
    SetsNineAt(draws);
    forall i | 0 <= i < |t.nodes| ensures NodeOnlyAdds(t.nodes[i], s.nodes[i]) {
      SettledNodeOnlyAdds(t.nodes[i], draws.nodeKey(i));
    }
    forall i | 0 <= i < |t.links| ensures LinkOnlyAdds(t.links[i], s.links[i], t.global) {
      SettledLinkOnlyAdds(t.links[i], t.global, draws.link(i));
    }
    forall i | 0 <= i < |t.pools| ensures PoolOnlyAdds(t.pools[i], s.pools[i], t.global) {
      SettledPoolOnlyAdds(t.pools[i], t.global, draws.poolKey(i), draws.pool(i));
    }
  }

  lemma SetsNineAt(draws: Draws)
    requires SetsNine(draws)
    ensures forall i :: draws.link(i).Keys == Nine()
    ensures forall i :: draws.pool(i).Keys == Nine()
  {
    hide Nine;
  }

  lemma SettledNodeOnlyAdds(node: Node, drawn: string)
    ensures NodeOnlyAdds(node, SettledNode(node, drawn))
  {}

  lemma SettledLinkOnlyAdds(link: Link, global: Obfuscation, drawn: Obfuscation)
    requires drawn.Keys == Nine()
    ensures LinkOnlyAdds(link, SettledLink(link, global, drawn), global)
  {
    hide SettledObfuscation, OnlyAdds, Nine;
    SettledOnlyAdds(link.plain, link.obfuscation, global, drawn);
  }

  lemma SettledPoolOnlyAdds(pool: Pool, global: Obfuscation, key: string, drawn: Obfuscation)
    requires drawn.Keys == Nine()
    ensures PoolOnlyAdds(pool, SettledPool(pool, global, key, drawn), global)
  {
    hide SettledObfuscation, OnlyAdds, Nine;
    SettledOnlyAdds(pool.plain, pool.obfuscation, global, drawn);
  }

  lemma SettledOnlyAdds(plain: bool, specific: Obfuscation, global: Obfuscation, drawn: Obfuscation)
    ensures drawn.Keys == Nine() ==> OnlyAdds(specific, SettledObfuscation(plain, specific, global, drawn), global)
    ensures plain ==> SettledObfuscation(plain, specific, global, drawn) == specific
  {}
}
