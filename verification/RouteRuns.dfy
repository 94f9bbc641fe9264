/** The route tracking as a state machine: reconciliations with any failures, restarts with any config,
    and other programs' routes coming and going, in any interleaving. */
module RouteRuns {
  import opened Routes

  type Key = string

  /** One interface of the config: the peers with an explicit `allowed_ips`, by public key. */
  datatype TrackedInterface = TrackedInterface(
    name: string,
    index: Ifindex,
    staleSecs: nat,
    peers: map<Key, seq<Text>>)

  datatype PeerStats = PeerStats(lastHandshake: nat, rxBytes: nat, txBytes: nat)

  type Dump = map<Key, PeerStats>

  function SaturatingSub(x: nat, y: nat): nat {
    if x < y then 0 else x - y
  }

  predicate IsFresh(iface: TrackedInterface, now: nat, dump: Dump, key: Key) {
    && key in dump
    && dump[key].lastHandshake > 0
    && SaturatingSub(now, dump[key].lastHandshake) < iface.staleSecs
  }

  /** A peer is fresh exactly when the dump has a handshake of it, which is not zero, and it is less than
      `staleSecs` old - as one in the future is, unless no age at all is allowed. */
  lemma FreshIff(iface: TrackedInterface, now: nat, dump: Dump, key: Key)
    ensures IsFresh(iface, now, dump, key) <==>
      && key in dump && dump[key].lastHandshake != 0
      && iface.staleSecs > 0 && now < dump[key].lastHandshake + iface.staleSecs
  {}

  /** No handshake at all, or one `staleSecs` old or older. */
  ghost predicate IsSilent(iface: TrackedInterface, now: nat, dump: Dump, key: Key) {
    key in dump && dump[key].lastHandshake != 0 && iface.staleSecs > 0 ==>
      dump[key].lastHandshake + iface.staleSecs <= now
  }

  /** As long as nothing new is heard of a peer, it does not become fresh again. */
  lemma StaleStaysStale(iface: TrackedInterface, now: nat, later: nat, dump: Dump, later': Dump, key: Key)
    requires !IsFresh(iface, now, dump, key) && now <= later
    requires key in later' ==> key in dump && later'[key].lastHandshake == dump[key].lastHandshake
    ensures !IsFresh(iface, later, later', key)
  {
    FreshIff(iface, now, dump, key);
    FreshIff(iface, later, later', key);
  }

  /** Every route the interface's fresh peers need. */
  ghost function Needed(iface: TrackedInterface, now: nat, dump: Dump): set<Text> {
    set key, t | key in iface.peers && IsFresh(iface, now, dump, key) && t in iface.peers[key] :: t
  }

  /** A route is needed exactly when a peer that has it is not silent. */
  lemma NeededIff(iface: TrackedInterface, now: nat, dump: Dump, t: Text)
    ensures t in Needed(iface, now, dump) <==>
      exists key :: key in iface.peers && t in iface.peers[key] && !IsSilent(iface, now, dump, key)
  {
    forall key ensures IsFresh(iface, now, dump, key) <==> !IsSilent(iface, now, dump, key) {
      FreshIff(iface, now, dump, key);
    }
    hide IsFresh, IsSilent;
  }

  ghost function AllowedTexts(iface: TrackedInterface): set<Text> {
    set key, t | key in iface.peers && t in iface.peers[key] :: t
  }

  // ---- Worlds and steps ----

  datatype World = World(
    tracked: seq<TrackedInterface>,
    table: Table,
    installed: map<Ifindex, set<Text>>,
    seeded: set<Ifindex>)

  datatype Event =
    | DumpFailed(i: nat)
    | Reconciled(i: nat, now: nat, dump: Dump, change: Change)
    | OthersRouted(table: Table)
    | Restarted(tracked: seq<TrackedInterface>, table: Table, seeds: set<Ifindex>)

  ghost function EntryOf(w: World, dev: Ifindex): set<Text> {
    if dev in w.installed then w.installed[dev] else {}
  }

  ghost function Indices(tracked: seq<TrackedInterface>): set<Ifindex> {
    set iface | iface in tracked :: iface.index
  }

  ghost predicate DistinctIndices(tracked: seq<TrackedInterface>) {
    forall i, j :: 0 <= i < j < |tracked| ==> tracked[i].index != tracked[j].index
  }

  ghost predicate SameOurs(table: Table, table': Table) {
    forall dev :: OursOn(table, dev) == OursOn(table', dev)
  }

  /** Removing the links a config no longer has removes their routes with them, and no others. */
  ghost predicate LinksRemoved(table: Table, table': Table, tracked: seq<TrackedInterface>) {
    && (forall d :: d in table' ==> d in table && table'[d] == table[d])
    && (forall d :: d in table && d !in table' ==> table[d].dev !in Indices(tracked))
  }

  ghost function Changed(w: World, dev: Ifindex, change: Change): World {
    w.(table := TableAfter(w.table, dev, change),
       installed := w.installed[dev := EntryAfter(EntryOf(w, dev), change)])
  }

  ghost predicate Next(w: World, e: Event, w': World) {
    match e
    case DumpFailed(i) => i < |w.tracked| && w' == w
    case Reconciled(i, now, dump, change) =>
      && i < |w.tracked|
      && var dev := w.tracked[i].index;
      && Allowed(change, EntryOf(w, dev), Needed(w.tracked[i], now, dump))
      && w' == Changed(w, dev, change)
    case OthersRouted(table) => SameOurs(w.table, table) && w' == w.(table := table)
    case Restarted(tracked, table, seeds) =>
      && LinksRemoved(w.table, table, tracked)
      && w' == World(tracked, table, map dev | dev in seeds :: Seed(table, dev), seeds)
  }

  /** Every config of the run, at its start and after each restart, meets `ok`. */
  ghost predicate IsRun(ws: seq<World>, es: seq<Event>, ok: seq<TrackedInterface> -> bool) {
    && |ws| == |es| + 1
    && (forall k :: 0 <= k < |es| ==> Next(ws[k], es[k], ws[k + 1]))
    && (forall k :: 0 <= k < |ws| ==> DistinctIndices(ws[k].tracked) && ok(ws[k].tracked))
  }

  /** A daemon just started: nothing tracked in memory beyond what a seed read. */
  ghost predicate Start(w: World) {
    w.installed == map dev | dev in w.seeded :: Seed(w.table, dev)
  }

  // ---- What a config must be like ----

  /** The kernel's own spelling of every destination; the default route, which no seed reads back, may
      go by any one. */
  ghost predicate WellSpelled(iface: TrackedInterface) {
    && OneSpelling(AllowedTexts(iface))
    && forall t :: t in AllowedTexts(iface) && t.dest.len != 0 ==> Canonical(t)
  }

  /** No destination belongs to two interfaces. */
  ghost predicate NoneShared(tracked: seq<TrackedInterface>) {
    forall i, j :: 0 <= i < j < |tracked| ==>
      Dests(AllowedTexts(tracked[i])) !! Dests(AllowedTexts(tracked[j]))
  }

  ghost predicate Sound(tracked: seq<TrackedInterface>) {
    NoneShared(tracked) && forall iface :: iface in tracked ==> WellSpelled(iface)
  }

  ghost predicate Recoverable(tracked: seq<TrackedInterface>) {
    Sound(tracked) && forall iface, t :: iface in tracked && t in AllowedTexts(iface) ==> t.dest.len != 0
  }

  // ---- What every step keeps ----

  /** An installed text of the interface's own peers is a route in the kernel. */
  ghost predicate InstalledIsThere(w: World) {
    forall i, t :: 0 <= i < |w.tracked| && t in EntryOf(w, w.tracked[i].index) && t in AllowedTexts(w.tracked[i]) ==>
      t.dest in OursOn(w.table, w.tracked[i].index)
  }

  /** An installed text is one of the interface's own peers, or one a seed read back. */
  ghost predicate InstalledIsKnown(w: World) {
    forall i, t :: 0 <= i < |w.tracked| && t in EntryOf(w, w.tracked[i].index) ==>
      t in AllowedTexts(w.tracked[i]) || (Canonical(t) && t.dest.len != 0)
  }

  /** An interface whose seed succeeded has every route of ours on it in its set. */
  ghost predicate SeededIsComplete(w: World) {
    forall i, d ::
      0 <= i < |w.tracked| && w.tracked[i].index in w.seeded && d in OursOn(w.table, w.tracked[i].index) ==>
        Format(d) in EntryOf(w, w.tracked[i].index)
  }

  ghost predicate NoDefaultOfOurs(w: World) {
    forall dev, d :: d in OursOn(w.table, dev) ==> d.len != 0
  }

  lemma ReconciledOneSpelling(w: World, e: Event, w': World)
    requires e.Reconciled? && Next(w, e, w') && Sound(w.tracked) && InstalledIsKnown(w)
    ensures OneSpelling(EntryOf(w, w.tracked[e.i].index) + Needed(w.tracked[e.i], e.now, e.dump))
  {
    assert WellSpelled(w.tracked[e.i]);
  }

  lemma ReconciledKeepsInstalled(w: World, e: Event, w': World)
    requires e.Reconciled? && Next(w, e, w') && DistinctIndices(w.tracked) && Sound(w.tracked)
    requires InstalledIsThere(w) && InstalledIsKnown(w)
    ensures InstalledIsThere(w') && InstalledIsKnown(w')
  {
    var i, change := e.i, e.change;
    var need := Needed(w.tracked[i], e.now, e.dump);
    var dev := w.tracked[i].index;
    ReconciledOneSpelling(w, e, w');
    OursAfter(w.table, dev, EntryOf(w, dev), need, change);
    forall j, t | 0 <= j < |w.tracked| && t in EntryOf(w', w.tracked[j].index) && t in AllowedTexts(w.tracked[j])
      ensures t.dest in OursOn(w'.table, w.tracked[j].index)
    {
      if j == i {
        assert t in change.added ==> t.dest in Dests(change.added);
      } else {
        OthersAfter(w.table, dev, change, w.tracked[j].index);
        assert t.dest in Dests(AllowedTexts(w.tracked[j]));
        assert need <= AllowedTexts(w.tracked[i]);
        assert Dests(change.added) <= Dests(AllowedTexts(w.tracked[i]));
      }
    }
  }

  lemma StepKeepsInstalled(w: World, e: Event, w': World)
    requires Next(w, e, w') && DistinctIndices(w.tracked) && Sound(w.tracked)
    requires InstalledIsThere(w) && InstalledIsKnown(w)
    ensures InstalledIsThere(w') && InstalledIsKnown(w')
  {
    if e.Reconciled? {
      ReconciledKeepsInstalled(w, e, w');
    }
  }

  lemma ReconciledKeepsComplete(w: World, e: Event, w': World)
    requires e.Reconciled? && Next(w, e, w') && DistinctIndices(w.tracked) && Recoverable(w.tracked)
    requires InstalledIsKnown(w) && SeededIsComplete(w) && NoDefaultOfOurs(w)
    ensures SeededIsComplete(w') && NoDefaultOfOurs(w')
  {
    var i, change := e.i, e.change;
    var need := Needed(w.tracked[i], e.now, e.dump);
    var dev := w.tracked[i].index;
    ReconciledOneSpelling(w, e, w');
    OursAfter(w.table, dev, EntryOf(w, dev), need, change);
    assert WellSpelled(w.tracked[i]);
    forall other, d | d in OursOn(w'.table, other) ensures d.len != 0 {
      if other != dev {
        OthersAfter(w.table, dev, change, other);
      }
    }
    forall j, d | 0 <= j < |w.tracked| && w.tracked[j].index in w.seeded && d in OursOn(w'.table, w.tracked[j].index)
      ensures Format(d) in EntryOf(w', w.tracked[j].index)
    {
      if j == i {
        assert Format(d) in change.deleted ==> d in Dests(change.deleted);
      } else {
        OthersAfter(w.table, dev, change, w.tracked[j].index);
      }
    }
  }

  lemma StepKeepsComplete(w: World, e: Event, w': World)
    requires Next(w, e, w') && DistinctIndices(w.tracked) && Recoverable(w.tracked)
    requires InstalledIsKnown(w) && SeededIsComplete(w) && NoDefaultOfOurs(w)
    ensures SeededIsComplete(w') && NoDefaultOfOurs(w')
  {
    if e.Reconciled? {
      ReconciledKeepsComplete(w, e, w');
    } else {
      forall dev, d | d in OursOn(w'.table, dev) ensures d in OursOn(w.table, dev) {}
    }
  }

  // ---- Over whole runs ----

  /** Through any failures, restarts and other programs' routes: what the daemon believes installed for
      a peer of its config is in the kernel. */
  lemma {:induction false} RunsKeepInstalled(ws: seq<World>, es: seq<Event>)
    requires IsRun(ws, es, Sound) && Start(ws[0])
    ensures InstalledIsThere(ws[|es|]) && InstalledIsKnown(ws[|es|])
  {
    if es == [] {
    } else {
      var n := |es| - 1;
      RunsKeepInstalled(ws[..n + 1], es[..n]);
      assert ws[..n + 1][n] == ws[n];
      StepKeepsInstalled(ws[n], es[n], ws[n + 1]);
    }
  }

  /** And on an interface whose seed succeeded, it knows every route of its own. */
  lemma {:induction false} RunsKeepComplete(ws: seq<World>, es: seq<Event>)
    requires IsRun(ws, es, Recoverable) && Start(ws[0]) && NoDefaultOfOurs(ws[0])
    ensures SeededIsComplete(ws[|es|]) && NoDefaultOfOurs(ws[|es|])
  {
    if es == [] {
    } else {
      var n := |es| - 1;
      RunsKeepComplete(ws[..n + 1], es[..n]);
      assert ws[..n + 1][n] == ws[n];
      assert IsRun(ws[..n + 1], es[..n], Sound);
      RunsKeepInstalled(ws[..n + 1], es[..n]);
      StepKeepsComplete(ws[n], es[n], ws[n + 1]);
    }
  }

  /** So a set without stale texts is exactly the interface's routes. */
  lemma SettledIsExact(ws: seq<World>, es: seq<Event>, i: nat)
    requires IsRun(ws, es, Recoverable) && Start(ws[0]) && NoDefaultOfOurs(ws[0])
    requires var w := ws[|es|];
      i < |w.tracked| && w.tracked[i].index in w.seeded
      && EntryOf(w, w.tracked[i].index) <= AllowedTexts(w.tracked[i])
    ensures var w := ws[|es|];
      OursOn(w.table, w.tracked[i].index) == Dests(EntryOf(w, w.tracked[i].index))
  {
    assert IsRun(ws, es, Sound);
    RunsKeepInstalled(ws, es);
    RunsKeepComplete(ws, es);
    var w := ws[|es|];
    var dev := w.tracked[i].index;
    forall d | d in OursOn(w.table, dev) ensures d in Dests(EntryOf(w, dev)) {
      assert Format(d) in EntryOf(w, dev);
    }
  }

  // ---- Exactly these configs are sound ----

  /** A run of a daemon started and restarted with one config. */
  ghost predicate RunOf(ws: seq<World>, es: seq<Event>, tracked: seq<TrackedInterface>) {
    IsRun(ws, es, (t: seq<TrackedInterface>) => t == tracked) && Start(ws[0])
  }

  ghost function Boot(tracked: seq<TrackedInterface>): World {
    World(tracked, map[], map[], {})
  }

  /** Every peer of the interface has just shaken hands. */
  ghost function EveryoneFresh(iface: TrackedInterface): Dump {
    map key | key in iface.peers :: PeerStats(1, 0, 0)
  }

  lemma FreshNeeds(iface: TrackedInterface)
    ensures iface.staleSecs > 0 ==> Needed(iface, 1, EveryoneFresh(iface)) == AllowedTexts(iface)
    ensures Needed(iface, 1, map[]) == {}
  {}

  lemma BootRuns(tracked: seq<TrackedInterface>)
    ensures DistinctIndices(tracked) ==> RunOf([Boot(tracked)], [], tracked)
  {}

  lemma RunOn(ws: seq<World>, es: seq<Event>, tracked: seq<TrackedInterface>, e: Event, w: World)
    requires RunOf(ws, es, tracked) && Next(ws[|es|], e, w) && w.tracked == tracked
    ensures RunOf(ws + [w], es + [e], tracked)
  {
    hide Next;
    var ws', es' := ws + [w], es + [e];
    forall k | 0 <= k < |es'| ensures Next(ws'[k], es'[k], ws'[k + 1]) {
      assert k < |es| ==> ws'[k] == ws[k] && ws'[k + 1] == ws[k + 1] && es'[k] == es[k];
    }
  }

  /** The run goes on with a reconciliation of interface `i` while all its peers are fresh. */
  lemma RunFresh(ws: seq<World>, es: seq<Event>, tracked: seq<TrackedInterface>, i: nat, change: Change)
      returns (ws': seq<World>, es': seq<Event>)
    requires RunOf(ws, es, tracked) && ws[|es|].tracked == tracked
    requires i < |tracked| && tracked[i].staleSecs > 0
    requires Allowed(change, EntryOf(ws[|es|], tracked[i].index), AllowedTexts(tracked[i]))
    ensures RunOf(ws', es', tracked) && ws'[0] == ws[0]
    ensures ws'[|es'|] == Changed(ws[|es|], tracked[i].index, change)
  {
    RunLengths(ws, es, tracked);
    hide RunOf;
    var w := ws[|es|];
    FreshNeeds(tracked[i]);
    var e := Reconciled(i, 1, EveryoneFresh(tracked[i]), change);
    RunOn(ws, es, tracked, e, Changed(w, tracked[i].index, change));
    ws', es' := ws + [Changed(w, tracked[i].index, change)], es + [e];
    RunLengths(ws', es', tracked);
  }

  lemma RunLengths(ws: seq<World>, es: seq<Event>, tracked: seq<TrackedInterface>)
    ensures RunOf(ws, es, tracked) ==> |ws| == |es| + 1
  {}

  /** Two texts of one interface that spell one destination: both added, the first deleted, and the
      deletion of the second failing leaves it installed without a route. */
  lemma TwoSpellingsBreak(tracked: seq<TrackedInterface>, i: nat, t: Text, u: Text)
      returns (ws: seq<World>, es: seq<Event>)
    requires DistinctIndices(tracked) && i < |tracked| && tracked[i].staleSecs > 0
    requires t in AllowedTexts(tracked[i]) && u in AllowedTexts(tracked[i]) && t != u && t.dest == u.dest
    ensures RunOf(ws, es, tracked) && ws[0] == Boot(tracked) && !InstalledIsThere(ws[|es|])
  {
    hide RunOf, AllowedTexts;
    var dev := tracked[i].index;
    var both, drop := Change({t, u}, {}), Change({}, {t});
    var w0 := Boot(tracked);
    BootRuns(tracked);
    ws, es := RunFresh([w0], [], tracked, i, both);
    var w1 := Changed(w0, dev, both);
    assert EntryOf(w1, dev) == {t, u};
    var w2 := Changed(w1, dev, drop);
    FreshNeeds(tracked[i]);
    RunLengths(ws, es, tracked);
    RunOn(ws, es, tracked, Reconciled(i, 1, map[], drop), w2);
    ws, es := ws + [w2], es + [Reconciled(i, 1, map[], drop)];
    assert t in {t} && t.dest in Dests({t}) && t.dest in Dests({t, u});
    assert u in EntryOf(w2, dev) && u.dest !in w2.table;
    RunLengths(ws, es, tracked);
    assert !InstalledIsThere(w2);
  }

  /** A text not spelled the kernel's way: after a restart the seed knows the route by another text,
      which is stale, and deleting it takes away the route just added for the first. */
  lemma ForeignSpellingBreaks(tracked: seq<TrackedInterface>, i: nat, t: Text) returns (ws: seq<World>, es: seq<Event>)
    requires DistinctIndices(tracked) && i < |tracked| && tracked[i].staleSecs > 0
    requires t in AllowedTexts(tracked[i]) && t.dest.len != 0 && Format(t.dest) !in AllowedTexts(tracked[i])
    ensures RunOf(ws, es, tracked) && ws[0] == Boot(tracked) && !InstalledIsThere(ws[|es|])
  {
    hide RunOf, AllowedTexts;
    var dev := tracked[i].index;
    var f := Format(t.dest);
    var add, swap := Change({t}, {}), Change({t}, {f});
    var w0 := Boot(tracked);
    BootRuns(tracked);
    ws, es := RunFresh([w0], [], tracked, i, add);
    var w1 := Changed(w0, dev, add);
    AddedAlone(dev, t);
    var w2 := World(tracked, w1.table, map[dev := {f}], {dev});
    assert w2.installed == map d | d in {dev} :: Seed(w1.table, d);
    RunLengths(ws, es, tracked);
    RunOn(ws, es, tracked, Restarted(tracked, w1.table, {dev}), w2);
    ws, es := ws + [w2], es + [Restarted(tracked, w1.table, {dev})];
    RunLengths(ws, es, tracked);
    ws, es := RunFresh(ws, es, tracked, i, swap);
    var w3 := Changed(w2, dev, swap);
    assert t in {t} && t.dest in Dests({t}) && f in {f} && f.dest in Dests({f});
    assert t in EntryOf(w3, dev) && t.dest !in w3.table;
    assert !InstalledIsThere(w3);
  }

  lemma AddedAlone(dev: Ifindex, t: Text)
    requires t.dest.len != 0
    ensures Seed(TableAfter(map[], dev, Change({t}, {})), dev) == {Format(t.dest)}
  {
    assert Dests({t}) == {t.dest} && Dests({}) == {};
    assert TableAfter(map[], dev, Change({t}, {})) == map[t.dest := Route(dev, Ours)];
    assert OursOn(map[t.dest := Route(dev, Ours)], dev) == {t.dest};
  }

  /** A destination on two interfaces: the second add moves the route, and the first set is wrong. */
  lemma SharedBreaks(tracked: seq<TrackedInterface>, i: nat, j: nat, t: Text, u: Text)
      returns (ws: seq<World>, es: seq<Event>)
    requires DistinctIndices(tracked) && i < j < |tracked| && tracked[i].staleSecs > 0 && tracked[j].staleSecs > 0
    requires t in AllowedTexts(tracked[i]) && u in AllowedTexts(tracked[j]) && t.dest == u.dest
    ensures RunOf(ws, es, tracked) && ws[0] == Boot(tracked) && !InstalledIsThere(ws[|es|])
  {
    var dev, dev' := tracked[i].index, tracked[j].index;
    assert dev != dev';
    hide RunOf, AllowedTexts, DistinctIndices;
    var first, second := Change({t}, {}), Change({u}, {});
    var w0 := Boot(tracked);
    BootRuns(tracked);
    ws, es := RunFresh([w0], [], tracked, i, first);
    var w1 := Changed(w0, dev, first);
    ws, es := RunFresh(ws, es, tracked, j, second);
    var w2 := Changed(w1, dev', second);
    assert u in {u} && u.dest in Dests({u});
    assert t in EntryOf(w2, dev) && t.dest !in OursOn(w2.table, dev);
    assert !InstalledIsThere(w2);
  }

  /** What the daemon believes installed for its peers is in the kernel, in every run with a config,
      exactly when the config shares no destination between interfaces and spells each one the kernel's
      way. (A peer of an interface with no staleness allowance is never fresh.) */
  lemma SoundIffInstalledIsThere(tracked: seq<TrackedInterface>)
    requires DistinctIndices(tracked) && forall iface :: iface in tracked ==> iface.staleSecs > 0
    ensures (forall ws, es :: RunOf(ws, es, tracked) ==> InstalledIsThere(ws[|es|])) <==> Sound(tracked)
  {
    if Sound(tracked) {
      forall ws, es | RunOf(ws, es, tracked) ensures InstalledIsThere(ws[|es|]) {
        assert IsRun(ws, es, Sound);
        RunsKeepInstalled(ws, es);
      }
    } else {
      var ws, es := UnsoundBreaks(tracked);
    }
  }

  ghost predicate BothAllow(tracked: seq<TrackedInterface>, i: nat, j: nat, d: Dest) {
    i < j < |tracked| && d in Dests(AllowedTexts(tracked[i])) && d in Dests(AllowedTexts(tracked[j]))
  }

  lemma UnsoundBreaks(tracked: seq<TrackedInterface>) returns (ws: seq<World>, es: seq<Event>)
    requires DistinctIndices(tracked) && forall iface :: iface in tracked ==> iface.staleSecs > 0
    requires !Sound(tracked)
    ensures RunOf(ws, es, tracked) && ws[0] == Boot(tracked) && !InstalledIsThere(ws[|es|])
  {
    hide RunOf, InstalledIsThere, DistinctIndices, AllowedTexts;
    if i: nat, j: nat, d: Dest :| BothAllow(tracked, i, j, d) {
      var t :| t in AllowedTexts(tracked[i]) && t.dest == d;
      var u :| u in AllowedTexts(tracked[j]) && u.dest == d;
      ws, es := SharedBreaks(tracked, i, j, t, u);
    } else {
      forall i, j, d | 0 <= i < j < |tracked|
        ensures d !in Dests(AllowedTexts(tracked[i])) || d !in Dests(AllowedTexts(tracked[j]))
      {
        assert !BothAllow(tracked, i, j, d);
      }
      var i :| 0 <= i < |tracked| && !WellSpelled(tracked[i]);
      if t, u :| t in AllowedTexts(tracked[i]) && u in AllowedTexts(tracked[i]) && t.dest == u.dest && t != u {
        ws, es := TwoSpellingsBreak(tracked, i, t, u);
      } else {
        var t :| t in AllowedTexts(tracked[i]) && t.dest.len != 0 && !Canonical(t);
        ws, es := ForeignSpellingBreaks(tracked, i, t);
      }
    }
  }
}
