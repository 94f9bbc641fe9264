/** A topology's secrets: what it sets, else a fresh value, apart with what had to be minted. */
module Secrets {
  import opened Topologies
  import opened Wrappers

  /** What the key and obfuscation generators would draw for each entry, by its position. */
  datatype Draws = Draws(
    nodeKey: nat -> string,
    link: nat -> Obfuscation,
    poolKey: nat -> string,
    pool: nat -> Obfuscation)

  /** The generator sets exactly its nine fields. */
  ghost predicate SetsNine(draws: Draws) {
    && (forall i :: draws.link(i).Keys == Nine())
    && (forall i :: draws.pool(i).Keys == Nine())
  }

  datatype ResolvedSecrets = ResolvedSecrets(
    nodeKeys: map<string, string>,
    linkObfuscation: map<string, Obfuscation>,
    poolKeys: map<string, string>,
    poolObfuscation: map<string, Obfuscation>)

  datatype PoolMinted = PoolMinted(name: string, privateKey: Option<string>, obfuscation: Option<Obfuscation>)

  /** What a message calls a minted value. */
  datatype Route =
    | NodeKeyOf(node: string)
    | ObfuscationOf(link: string)
    | PoolKeyOf(pool: string)
    | PoolObfuscationOf(pool: string)

  /** Nodes and links by their position. */
  datatype NodeMinted = NodeMinted(node: nat, key: string)

  datatype LinkMinted = LinkMinted(link: nat, obfuscation: Obfuscation)

  datatype Minted = Minted(
    nodeKeys: seq<NodeMinted>,
    linkObfuscation: seq<LinkMinted>,
    pools: seq<PoolMinted>,
    routes: seq<Route>)

  const NOTHING := Minted([], [], [], [])

  // ---- One value ----

  function KeyOf(specific: Option<string>, drawn: string): string {
    if specific.Some? then specific.value else drawn
  }

  method ResolveKey(specific: Option<string>, drawn: string) returns (key: string, generated: Option<string>)
    ensures key == KeyOf(specific, drawn)
    ensures generated == if specific.Some? then None else Some(drawn)
  {
    match specific
    case Some(key_) => return key_, None;
    case None => return drawn, Some(drawn);
  }

  /** The entry's own fields over the topology's, over drawn ones. */
  function Layered(specific: Obfuscation, global: Obfuscation, drawn: Obfuscation): Obfuscation {
    drawn + global + specific
  }

  function Lacking(specific: Obfuscation, global: Obfuscation, drawn: Obfuscation): Obfuscation {
    drawn - (global.Keys + specific.Keys)
  }

  method ResolveObfuscation(specific: Obfuscation, global: Obfuscation, drawn: Obfuscation)
    returns (resolved: Obfuscation, generated: Obfuscation)
    ensures resolved == Layered(specific, global, drawn)
    ensures generated == Lacking(specific, global, drawn)
  {
    hide Layered, Lacking;
    resolved, generated := map[], map[];
    var fields := specific.Keys + global.Keys + drawn.Keys;
    LayersKeys(specific, global, drawn);
    while fields != {}
      invariant fields <= specific.Keys + global.Keys + drawn.Keys
      invariant resolved == Layered(specific, global, drawn) - fields
      invariant generated == Lacking(specific, global, drawn) - fields
    {
      var f :| f in fields;
      LayersAt(specific, global, drawn, f);
      Without(Layered(specific, global, drawn), fields, f);
      Without(Lacking(specific, global, drawn), fields, f);
      if f in specific {
        resolved := resolved[f := specific[f]];
      } else if f in global {
        resolved := resolved[f := global[f]];
      } else {
        generated := generated[f := drawn[f]];
        resolved := resolved[f := drawn[f]];
      }
      fields := fields - {f};
    }
  }

  lemma LayersKeys(specific: Obfuscation, global: Obfuscation, drawn: Obfuscation)
    ensures Layered(specific, global, drawn).Keys == specific.Keys + global.Keys + drawn.Keys
    ensures Lacking(specific, global, drawn).Keys == drawn.Keys - global.Keys - specific.Keys
  {}

  lemma LayersAt(specific: Obfuscation, global: Obfuscation, drawn: Obfuscation, f: Field)
    requires f in specific.Keys + global.Keys + drawn.Keys
    ensures f in Layered(specific, global, drawn)
    ensures Layered(specific, global, drawn)[f] ==
      if f in specific then specific[f] else if f in global then global[f] else drawn[f]
    ensures f in Lacking(specific, global, drawn) <==> f !in specific && f !in global
    ensures f in Lacking(specific, global, drawn) ==> Lacking(specific, global, drawn)[f] == drawn[f]
  {}

  lemma Without(m: Obfuscation, fields: set<Field>, f: Field)
    requires f in fields
    ensures m - (fields - {f}) == if f in m then (m - fields)[f := m[f]] else m - fields
  {}

  function ObfuscationFor(plain: bool, specific: Obfuscation, global: Obfuscation, drawn: Obfuscation): Obfuscation {
    if plain then map[] else Layered(specific, global, drawn)
  }

  /** Nothing for a plain entry; else every field that the entry, the topology or the generator sets, as the
      first of them sets it. */
  ghost predicate IsLayered(resolved: Obfuscation, plain: bool, specific: Obfuscation, global: Obfuscation,
                            drawn: Obfuscation)
  {
    if plain then resolved == map[]
    else
      && (forall f :: f in resolved <==> f in specific || f in global || f in drawn)
      && (forall f :: f in specific ==> resolved[f] == specific[f])
      && (forall f :: f in global && f !in specific ==> resolved[f] == global[f])
      && (forall f :: f in drawn && f !in global && f !in specific ==> resolved[f] == drawn[f])
  }

  lemma ForIsLayered(plain: bool, specific: Obfuscation, global: Obfuscation, drawn: Obfuscation)
    ensures IsLayered(ObfuscationFor(plain, specific, global, drawn), plain, specific, global, drawn)
  {}

  function MintedFor(plain: bool, specific: Obfuscation, global: Obfuscation, drawn: Obfuscation): Option<Obfuscation> {
    if plain || Lacking(specific, global, drawn) == map[] then None
    else Some(Lacking(specific, global, drawn))
  }

  method ResolveUnlessPlain(plain: bool, specific: Obfuscation, global: Obfuscation, drawn: Obfuscation)
    returns (resolved: Obfuscation, generated: Option<Obfuscation>)
    ensures resolved == ObfuscationFor(plain, specific, global, drawn)
    ensures generated == MintedFor(plain, specific, global, drawn)
  {
    if plain {
      return map[], None;
    }
    var fields: Obfuscation;
    resolved, fields := ResolveObfuscation(specific, global, drawn);
    generated := if fields == map[] then None else Some(fields);
  }

  // ---- A topology ----

  function NodeKeys(nodes: seq<Node>, draws: Draws): map<string, string> {
    if nodes == [] then map[]
    else
      var i := |nodes| - 1;
      NodeKeys(nodes[..i], draws)[nodes[i].name := KeyOf(nodes[i].privateKey, draws.nodeKey(i))]
  }

  /** Two links of one key share an entry: the later one's. */
  function LinkObfuscations(links: seq<Link>, global: Obfuscation, draws: Draws): map<string, Obfuscation> {
    if links == [] then map[]
    else
      var i := |links| - 1;
      LinkObfuscations(links[..i], global, draws)[KeyOfLink(links[i]) := OfLink(links[i], global, draws.link(i))]
  }

  function KeyOfLink(link: Link): string {
    LinkKey(link.one, link.other)
  }

  function OfLink(link: Link, global: Obfuscation, drawn: Obfuscation): Obfuscation {
    ObfuscationFor(link.plain, link.obfuscation, global, drawn)
  }

  function PoolKeys(pools: seq<Pool>, draws: Draws): map<string, string> {
    if pools == [] then map[]
    else
      var i := |pools| - 1;
      PoolKeys(pools[..i], draws)[pools[i].name := KeyOf(pools[i].privateKey, draws.poolKey(i))]
  }

  function PoolObfuscations(pools: seq<Pool>, global: Obfuscation, draws: Draws): map<string, Obfuscation> {
    if pools == [] then map[]
    else
      var i := |pools| - 1;
      PoolObfuscations(pools[..i], global, draws)[pools[i].name := OfPool(pools[i], global, draws.pool(i))]
  }

  function OfPool(pool: Pool, global: Obfuscation, drawn: Obfuscation): Obfuscation {
    ObfuscationFor(pool.plain, pool.obfuscation, global, drawn)
  }

  function Resolved(t: Topology, draws: Draws): ResolvedSecrets {
    ResolvedSecrets(
      NodeKeys(t.nodes, draws),
      LinkObfuscations(t.links, t.global, draws),
      PoolKeys(t.pools, draws),
      PoolObfuscations(t.pools, t.global, draws))
  }

  function MintedNodes(nodes: seq<Node>, draws: Draws): seq<NodeMinted> {
    if nodes == [] then []
    else
      var i := |nodes| - 1;
      MintedNodes(nodes[..i], draws) + (if nodes[i].privateKey.Some? then [] else [NodeMinted(i, draws.nodeKey(i))])
  }

  function NodeRoutes(nodes: seq<Node>): seq<Route> {
    if nodes == [] then []
    else
      var i := |nodes| - 1;
      NodeRoutes(nodes[..i]) + (if nodes[i].privateKey.Some? then [] else [NodeKeyOf(nodes[i].name)])
  }

  function MintedOfLink(link: Link, global: Obfuscation, drawn: Obfuscation): Option<Obfuscation> {
    MintedFor(link.plain, link.obfuscation, global, drawn)
  }

  function MintedLinks(links: seq<Link>, global: Obfuscation, draws: Draws): seq<LinkMinted> {
    if links == [] then []
    else
      var i := |links| - 1;
      var minted := MintedOfLink(links[i], global, draws.link(i));
      MintedLinks(links[..i], global, draws) + (if minted.Some? then [LinkMinted(i, minted.value)] else [])
  }

  function LinkRoutes(links: seq<Link>, global: Obfuscation, draws: Draws): seq<Route> {
    if links == [] then []
    else
      var i := |links| - 1;
      LinkRoutes(links[..i], global, draws)
        + (if MintedOfLink(links[i], global, draws.link(i)).Some? then [ObfuscationOf(KeyOfLink(links[i]))] else [])
  }

  function MintedOfPool(pool: Pool, global: Obfuscation, key: string, drawn: Obfuscation): PoolMinted {
    PoolMinted(
      pool.name,
      if pool.privateKey.Some? then None else Some(key),
      MintedFor(pool.plain, pool.obfuscation, global, drawn))
  }

  function IfMinted(m: PoolMinted): seq<PoolMinted> {
    if m.privateKey.Some? || m.obfuscation.Some? then [m] else []
  }

  function MintedPools(pools: seq<Pool>, global: Obfuscation, draws: Draws): seq<PoolMinted> {
    if pools == [] then []
    else
      var i := |pools| - 1;
      MintedPools(pools[..i], global, draws) + IfMinted(MintedOfPool(pools[i], global, draws.poolKey(i), draws.pool(i)))
  }

  function RoutesOfPool(m: PoolMinted): seq<Route> {
    (if m.privateKey.Some? then [PoolKeyOf(m.name)] else [])
      + (if m.obfuscation.Some? then [PoolObfuscationOf(m.name)] else [])
  }

  function PoolRoutes(pools: seq<Pool>, global: Obfuscation, draws: Draws): seq<Route> {
    if pools == [] then []
    else
      var i := |pools| - 1;
      PoolRoutes(pools[..i], global, draws) +
        RoutesOfPool(MintedOfPool(pools[i], global, draws.poolKey(i), draws.pool(i)))
  }

  function MintedIn(t: Topology, draws: Draws): Minted {
    Minted(
      MintedNodes(t.nodes, draws),
      MintedLinks(t.links, t.global, draws),
      MintedPools(t.pools, t.global, draws),
      NodeRoutes(t.nodes) + LinkRoutes(t.links, t.global, draws) + PoolRoutes(t.pools, t.global, draws))
  }

  // ---- Which names are reported ----

  /** An entry lacks a field that the generator sets. */
  ghost predicate LacksAny(plain: bool, specific: Obfuscation, global: Obfuscation, drawn: Obfuscation) {
    !plain && exists f :: f in drawn && f !in global && f !in specific
  }

  lemma LackingAny(plain: bool, specific: Obfuscation, global: Obfuscation, drawn: Obfuscation)
    ensures MintedFor(plain, specific, global, drawn).Some? <==> LacksAny(plain, specific, global, drawn)
  {
    var lacking := Lacking(specific, global, drawn);
    assert lacking.Keys == {} <==> lacking == map[];
    if f :| f in drawn && f !in global && f !in specific {
      assert f in lacking.Keys;
    }
  }

  ghost predicate NamesNode(nodes: seq<Node>, r: Route) {
    exists node :: node in nodes && node.privateKey.None? && r == NodeKeyOf(node.name)
  }

  ghost predicate NamesLink(links: seq<Link>, global: Obfuscation, draws: Draws, r: Route) {
    exists i: nat :: i < |links| && r == ObfuscationOf(LinkKey(links[i].one, links[i].other))
      && LacksAny(links[i].plain, links[i].obfuscation, global, draws.link(i))
  }

  ghost predicate NamesPool(pools: seq<Pool>, global: Obfuscation, draws: Draws, r: Route) {
    exists i: nat :: NamesPoolAt(pools, global, draws, r, i)
  }

  ghost predicate NamesPoolAt(pools: seq<Pool>, global: Obfuscation, draws: Draws, r: Route, i: nat) {
    && i < |pools|
    && if r.PoolKeyOf? then r.pool == pools[i].name && pools[i].privateKey.None?
       else
         && r == PoolObfuscationOf(pools[i].name)
         && LacksAny(pools[i].plain, pools[i].obfuscation, global, draws.pool(i))
  }

  lemma {:induction false} NodesNamed(nodes: seq<Node>, r: Route)
    ensures r in NodeRoutes(nodes) <==> NamesNode(nodes, r)
  {
    if nodes == [] {
    } else {
      var front, last := nodes[..|nodes| - 1], nodes[|nodes| - 1];
      NodesNamed(front, r);
      assert nodes == front + [last];
    }
  }

  lemma {:induction false} LinksNamed(links: seq<Link>, global: Obfuscation, draws: Draws, r: Route)
    ensures r in LinkRoutes(links, global, draws) <==> NamesLink(links, global, draws, r)
  {
    hide LacksAny, MintedFor, LinkKey;
    if links == [] {
    } else {
      var n := |links| - 1;
      LinksNamed(links[..n], global, draws, r);
      LackingAny(links[n].plain, links[n].obfuscation, global, draws.link(n));
      assert forall i :: 0 <= i < n ==> links[..n][i] == links[i];
    }
  }

  lemma {:induction false} PoolsNamed(pools: seq<Pool>, global: Obfuscation, draws: Draws, r: Route)
    ensures r in PoolRoutes(pools, global, draws) <==> NamesPool(pools, global, draws, r)
  {
    hide LacksAny, MintedFor;
    if pools == [] {
    } else {
      var n := |pools| - 1;
      PoolsNamed(pools[..n], global, draws, r);
      LackingAny(pools[n].plain, pools[n].obfuscation, global, draws.pool(n));
      forall i: nat | i < n
        ensures NamesPoolAt(pools[..n], global, draws, r, i) <==> NamesPoolAt(pools, global, draws, r, i)
      {}
      assert r in RoutesOfPool(MintedOfPool(pools[n], global, draws.poolKey(n), draws.pool(n))) <==>
        NamesPoolAt(pools, global, draws, r, n);
    }
  }

  /** The names are those of the node and pool keys the file does not set, and of the links and pools that
      are not plain and lack a field that neither they nor the topology set. */
  lemma NamesAre(t: Topology, draws: Draws, r: Route)
    ensures r in MintedIn(t, draws).routes <==>
      NamesNode(t.nodes, r) || NamesLink(t.links, t.global, draws, r) || NamesPool(t.pools, t.global, draws, r)
  {
    NodesNamed(t.nodes, r);
    LinksNamed(t.links, t.global, draws, r);
    PoolsNamed(t.pools, t.global, draws, r);
  }

  method Resolve(t: Topology, draws: Draws) returns (secrets: ResolvedSecrets, minted: Minted)
    ensures secrets == Resolved(t, draws)
    ensures minted == MintedIn(t, draws)
  {
    hide NodeKeys, LinkObfuscations, PoolKeys, PoolObfuscations;
    hide MintedNodes, MintedLinks, MintedPools, NodeRoutes, LinkRoutes, PoolRoutes;
    var nodeKeys, nodesMinted, nodeRoutes := ResolveNodes(t.nodes, draws);
    var linkObfuscation, linksMinted, linkRoutes := ResolveLinks(t.links, t.global, draws);
    var poolKeys, poolObfuscation, poolsMinted, poolRoutes := ResolvePools(t.pools, t.global, draws);
    secrets := ResolvedSecrets(nodeKeys, linkObfuscation, poolKeys, poolObfuscation);
    minted := Minted(nodesMinted, linksMinted, poolsMinted, nodeRoutes + linkRoutes + poolRoutes);
  }

  method ResolveNodes(nodes: seq<Node>, draws: Draws)
    returns (keys: map<string, string>, minted: seq<NodeMinted>, routes: seq<Route>)
    ensures keys == NodeKeys(nodes, draws)
    ensures minted == MintedNodes(nodes, draws) && routes == NodeRoutes(nodes)
  {
    hide KeyOf;
    keys, minted, routes := map[], [], [];
    for i := 0 to |nodes|
      invariant keys == NodeKeys(nodes[..i], draws)
      invariant minted == MintedNodes(nodes[..i], draws) && routes == NodeRoutes(nodes[..i])
    {
      assert nodes[..i + 1][..i] == nodes[..i];
      var key, generated := ResolveKey(nodes[i].privateKey, draws.nodeKey(i));
      if generated.Some? {
        minted := minted + [NodeMinted(i, generated.value)];
        routes := routes + [NodeKeyOf(nodes[i].name)];
      }
      keys := keys[nodes[i].name := key];
    }
    assert nodes[..|nodes|] == nodes;
  }

  method ResolveLinks(links: seq<Link>, global: Obfuscation, draws: Draws)
    returns (obfuscations: map<string, Obfuscation>, minted: seq<LinkMinted>, routes: seq<Route>)
    ensures obfuscations == LinkObfuscations(links, global, draws)
    ensures minted == MintedLinks(links, global, draws) && routes == LinkRoutes(links, global, draws)
  {
    hide ObfuscationFor, MintedFor, LinkKey;
    obfuscations, minted, routes := map[], [], [];
    for i := 0 to |links|
      invariant obfuscations == LinkObfuscations(links[..i], global, draws)
      invariant minted == MintedLinks(links[..i], global, draws) && routes == LinkRoutes(links[..i], global, draws)
    {
      assert links[..i + 1][..i] == links[..i];
      var link := links[i];
      var pair := KeyOfLink(link);
      var resolved, generated := ResolveUnlessPlain(link.plain, link.obfuscation, global, draws.link(i));
      if generated.Some? {
        minted := minted + [LinkMinted(i, generated.value)];
        routes := routes + [ObfuscationOf(pair)];
      }
      obfuscations := obfuscations[pair := resolved];
    }
    assert links[..|links|] == links;
  }

  method ResolvePools(pools: seq<Pool>, global: Obfuscation, draws: Draws)
    returns (keys: map<string, string>, obfuscations: map<string, Obfuscation>, minted: seq<PoolMinted>,
      routes: seq<Route>)
    ensures keys == PoolKeys(pools, draws) && obfuscations == PoolObfuscations(pools, global, draws)
    ensures minted == MintedPools(pools, global, draws) && routes == PoolRoutes(pools, global, draws)
  {
    hide KeyOf, OfPool, MintedFor, PoolKeys, PoolObfuscations, MintedPools, PoolRoutes;
    keys, obfuscations, minted, routes := map[], map[], [], [];
    NoPools(global, draws);
    for i := 0 to |pools|
      invariant keys == PoolKeys(pools[..i], draws)
      invariant obfuscations == PoolObfuscations(pools[..i], global, draws)
      invariant minted == MintedPools(pools[..i], global, draws)
      invariant routes == PoolRoutes(pools[..i], global, draws)
    {
      PoolsStep(pools, global, draws, i);
      var pool := pools[i];
      ghost var routesBefore := routes;
      var key, privateKey := ResolveKey(pool.privateKey, draws.poolKey(i));
      if privateKey.Some? {
        routes := routes + [PoolKeyOf(pool.name)];
      }
      var resolved, obfuscation := ResolveUnlessPlain(pool.plain, pool.obfuscation, global, draws.pool(i));
      if obfuscation.Some? {
        routes := routes + [PoolObfuscationOf(pool.name)];
      }
      ghost var made := PoolMinted(pool.name, privateKey, obfuscation);
      assert routes == routesBefore + RoutesOfPool(made);
      if privateKey.Some? || obfuscation.Some? {
        minted := minted + [PoolMinted(pool.name, privateKey, obfuscation)];
      }
      keys := keys[pool.name := key];
      obfuscations := obfuscations[pool.name := resolved];
    }
    assert pools[..|pools|] == pools;
  }

  lemma NoPools(global: Obfuscation, draws: Draws)
    ensures PoolKeys([], draws) == map[] && PoolObfuscations([], global, draws) == map[]
    ensures MintedPools([], global, draws) == [] && PoolRoutes([], global, draws) == []
  {}

  lemma PoolsStep(pools: seq<Pool>, global: Obfuscation, draws: Draws, i: nat)
    requires i < |pools|
    ensures var before, pool := pools[..i], pools[i];
      var minted := MintedOfPool(pool, global, draws.poolKey(i), draws.pool(i));
      var obfuscation := ObfuscationFor(pool.plain, pool.obfuscation, global, draws.pool(i));
      && PoolKeys(pools[..i + 1], draws) ==
        PoolKeys(before, draws)[pool.name := KeyOf(pool.privateKey, draws.poolKey(i))]
      && PoolObfuscations(pools[..i + 1], global, draws) ==
        PoolObfuscations(before, global, draws)[pool.name := obfuscation]
      && MintedPools(pools[..i + 1], global, draws) == MintedPools(before, global, draws) + IfMinted(minted)
      && PoolRoutes(pools[..i + 1], global, draws) == PoolRoutes(before, global, draws) + RoutesOfPool(minted)
  {
    hide KeyOf, ObfuscationFor, MintedFor, IfMinted, RoutesOfPool;
    assert pools[..i + 1][..i] == pools[..i];
  }

  // ---- Saying what was minted ----

  lemma {:induction false} RoutesSayNodes(nodes: seq<Node>, draws: Draws)
    ensures NodeRoutes(nodes) == [] <==> MintedNodes(nodes, draws) == []
  {
    if nodes == [] {
    } else {
      RoutesSayNodes(nodes[..|nodes| - 1], draws);
    }
  }

  lemma {:induction false} RoutesSayLinks(links: seq<Link>, global: Obfuscation, draws: Draws)
    ensures LinkRoutes(links, global, draws) == [] <==> MintedLinks(links, global, draws) == []
  {
    hide MintedOfLink;
    if links == [] {
    } else {
      RoutesSayLinks(links[..|links| - 1], global, draws);
    }
  }

  lemma {:induction false} RoutesSayPools(pools: seq<Pool>, global: Obfuscation, draws: Draws)
    ensures PoolRoutes(pools, global, draws) == [] <==> MintedPools(pools, global, draws) == []
  {
    hide MintedOfPool;
    if pools == [] {
    } else {
      RoutesSayPools(pools[..|pools| - 1], global, draws);
    }
  }

  /** The messages are empty exactly when nothing was minted. */
  lemma EmptyIffNothing(t: Topology, draws: Draws)
    ensures MintedIn(t, draws).routes == [] <==> MintedIn(t, draws) == NOTHING
  {
    hide NodeRoutes, MintedNodes, LinkRoutes, MintedLinks, PoolRoutes, MintedPools;
    RoutesSayNodes(t.nodes, draws);
    RoutesSayLinks(t.links, t.global, draws);
    RoutesSayPools(t.pools, t.global, draws);
  }
}
