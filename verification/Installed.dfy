/** The installed sets in full, texts included that a seed read back and no peer of the config has: when
    they are exactly this daemon's routes in the kernel. */
module Installed {
  import opened Routes
  import opened RouteRuns

  /** Every installed text of a tracked interface is a route of ours on it. */
  ghost predicate AllInstalledIsThere(w: World) {
    forall i, t :: 0 <= i < |w.tracked| && t in EntryOf(w, w.tracked[i].index) ==>
      t.dest in OursOn(w.table, w.tracked[i].index)
  }

  /** A set that a seed filled knows every route of ours on its interface. */
  ghost predicate SeededKnowsAll(w: World) {
    forall i, d ::
      0 <= i < |w.tracked| && w.tracked[i].index in w.seeded && d in OursOn(w.table, w.tracked[i].index) ==>
        d in Dests(EntryOf(w, w.tracked[i].index))
  }

  ghost predicate Exact(w: World) {
    AllInstalledIsThere(w) && SeededKnowsAll(w)
  }

  /** What an interface's set can ever hold: what it holds, and what its peers allow. */
  ghost function Reach(w: World, i: nat): set<Text>
    requires i < |w.tracked|
  {
    EntryOf(w, w.tracked[i].index) + AllowedTexts(w.tracked[i])
  }

  /** No destination goes by two spellings on an interface, and none an interface has or allows is
      allowed on another. */
  ghost predicate Apart(w: World) {
    && (forall i :: 0 <= i < |w.tracked| ==> OneSpelling(Reach(w, i)))
    && (forall i, j :: 0 <= i < |w.tracked| && 0 <= j < |w.tracked| && i != j ==>
      Dests(Reach(w, i)) !! Dests(AllowedTexts(w.tracked[j])))
  }

  /** No default route of ours is left over where a seed would have to read it. */
  ghost predicate NoLeftoverDefault(w: World) {
    forall i, d ::
      0 <= i < |w.tracked| && w.tracked[i].index in w.seeded && d in OursOn(w.table, w.tracked[i].index) ==>
        d.len != 0
  }

  // ---- Steps ----

  lemma NeededIsReached(w: World, i: nat, now: nat, dump: Dump)
    requires i < |w.tracked|
    ensures EntryOf(w, w.tracked[i].index) + Needed(w.tracked[i], now, dump) <= Reach(w, i)
  {}

  lemma EntriesAfter(w: World, e: Event, w': World, j: nat)
    requires e.Reconciled? && Next(w, e, w') && DistinctIndices(w.tracked) && j < |w.tracked|
    ensures w'.tracked == w.tracked && w'.seeded == w.seeded
    ensures EntryOf(w', w.tracked[j].index) ==
      if j == e.i then EntryAfter(EntryOf(w, w.tracked[j].index), e.change) else EntryOf(w, w.tracked[j].index)
    ensures Reach(w', j) <= Reach(w, j)
  {
    NeededIsReached(w, e.i, e.now, e.dump);
  }

  lemma ReconciledKeepsApart(w: World, e: Event, w': World)
    requires e.Reconciled? && Next(w, e, w') && DistinctIndices(w.tracked) && Apart(w)
    ensures Apart(w')
  {
    forall j | 0 <= j < |w.tracked| ensures Reach(w', j) <= Reach(w, j) && w'.tracked == w.tracked {
      EntriesAfter(w, e, w', j);
    }
    hide Next, Reach, AllowedTexts;
    EntriesAfter(w, e, w', e.i);
    forall i, j | 0 <= i < |w.tracked| && 0 <= j < |w.tracked| && i != j
      ensures Dests(Reach(w', i)) !! Dests(AllowedTexts(w.tracked[j]))
    {
      assert Dests(Reach(w', i)) <= Dests(Reach(w, i));
    }
  }

  lemma ReconciledKeepsExact(w: World, e: Event, w': World)
    requires e.Reconciled? && Next(w, e, w') && DistinctIndices(w.tracked) && Apart(w)
    requires AllInstalledIsThere(w)
    ensures AllInstalledIsThere(w') && (SeededKnowsAll(w) ==> SeededKnowsAll(w'))
  {
    var i, dev, change := e.i, w.tracked[e.i].index, e.change;
    var entry, need := EntryOf(w, dev), Needed(w.tracked[i], e.now, e.dump);
    NeededIsReached(w, i, e.now, e.dump);
    OursAfter(w.table, dev, entry, need, change);
    forall j | 0 <= j < |w.tracked|
      ensures forall t :: t in EntryOf(w', w.tracked[j].index) ==> t.dest in OursOn(w'.table, w.tracked[j].index)
      ensures SeededKnowsAll(w) && w.tracked[j].index in w.seeded ==>
        OursOn(w'.table, w.tracked[j].index) <= Dests(EntryOf(w', w.tracked[j].index))
    {
      EntriesAfter(w, e, w', j);
      if j == i {
        OwnAfter(w.table, dev, entry, change, OursOn(w'.table, dev), SeededKnowsAll(w) && dev in w.seeded);
      } else {
        OthersAfter(w.table, dev, change, w.tracked[j].index);
        assert change.added <= AllowedTexts(w.tracked[i]);
        assert Dests(change.added) <= Dests(AllowedTexts(w.tracked[i]));
        assert Dests(EntryOf(w, w.tracked[j].index)) <= Dests(Reach(w, j));
      }
    }
    EntriesAfter(w, e, w', i);
  }

  lemma OwnAfter(table: Table, dev: Ifindex, entry: set<Text>, change: Change, ours: set<Dest>, complete: bool)
    requires ours == OursOn(table, dev) + Dests(change.added) - Dests(change.deleted)
    requires OneSpelling(entry + change.added) && change.deleted <= entry
      && Dests(change.added) !! Dests(change.deleted)
    requires Dests(entry) <= OursOn(table, dev) && (complete ==> OursOn(table, dev) <= Dests(entry))
    ensures Dests(EntryAfter(entry, change)) <= ours
    ensures complete ==> ours <= Dests(EntryAfter(entry, change))
  {
    hide OursOn;
    forall t | t in EntryAfter(entry, change) ensures t.dest in ours {
      assert t in entry ==> t.dest in Dests(entry);
      assert t in change.added ==> t.dest in Dests(change.added);
    }
    if complete {
      forall d | d in ours ensures d in Dests(EntryAfter(entry, change)) {
        if d in Dests(change.added) {
          var t :| t in change.added && t.dest == d;
          assert t !in change.deleted;
        } else {
          var t :| t in entry && t.dest == d;
          assert t !in change.deleted;
        }
      }
    }
  }

  /** Every step but a restart keeps the installed sets in the kernel, and keeps them exact where they
      are. */
  lemma StepKeepsExact(w: World, e: Event, w': World)
    requires Next(w, e, w') && !e.Restarted? && DistinctIndices(w.tracked) && Apart(w)
    requires AllInstalledIsThere(w)
    ensures Apart(w') && AllInstalledIsThere(w') && (SeededKnowsAll(w) ==> SeededKnowsAll(w'))
  {
    if e.Reconciled? {
      ReconciledKeepsApart(w, e, w');
      ReconciledKeepsExact(w, e, w');
    } else if e.OthersRouted? {
      ForeignKeepsExact(w, e.table);
    }
  }

  lemma ForeignKeepsExact(w: World, table: Table)
    requires SameOurs(w.table, table) && Apart(w) && AllInstalledIsThere(w)
    ensures var w' := w.(table := table);
      Apart(w') && AllInstalledIsThere(w') && (SeededKnowsAll(w) ==> SeededKnowsAll(w'))
  {
    var w' := w.(table := table);
    forall j | 0 <= j < |w.tracked|
      ensures Reach(w', j) == Reach(w, j) && OursOn(w'.table, w.tracked[j].index) == OursOn(w.table, w.tracked[j].index)
    {}
    hide OursOn, Reach, OneSpelling, AllowedTexts;
  }

  lemma StartIsThere(w: World)
    requires Start(w)
    ensures AllInstalledIsThere(w)
    ensures SeededKnowsAll(w) <==> NoLeftoverDefault(w)
  {
    forall i, d | 0 <= i < |w.tracked| && w.tracked[i].index in w.seeded && d in OursOn(w.table, w.tracked[i].index)
      ensures d in Dests(EntryOf(w, w.tracked[i].index)) <==> d.len != 0
    {
      assert Format(d) in EntryOf(w, w.tracked[i].index) <==> d.len != 0;
    }
  }

  // ---- Runs ----

  /** The start of the run and what every restart of it starts from. */
  ghost predicate StartsAt(es: seq<Event>, k: nat)
    requires k <= |es|
  {
    k == 0 || es[k - 1].Restarted?
  }

  lemma ExactIsEqual(w: World, i: nat)
    requires Exact(w) && i < |w.tracked|
    ensures Dests(EntryOf(w, w.tracked[i].index)) <= OursOn(w.table, w.tracked[i].index)
    ensures w.tracked[i].index in w.seeded ==>
      OursOn(w.table, w.tracked[i].index) == Dests(EntryOf(w, w.tracked[i].index))
  {}

  lemma {:induction false} RunsStayExact(ws: seq<World>, es: seq<Event>, ok: seq<TrackedInterface> -> bool)
    requires IsRun(ws, es, ok) && Start(ws[0])
    requires forall k :: 0 <= k <= |es| && StartsAt(es, k) ==> Apart(ws[k]) && NoLeftoverDefault(ws[k])
    ensures Apart(ws[|es|]) && Exact(ws[|es|])
  {
    if es == [] {
      StartIsThere(ws[0]);
    } else {
      var n := |es| - 1;
      assert forall k :: 0 <= k <= n && StartsAt(es[..n], k) ==> StartsAt(es, k);
      RunsStayExact(ws[..n + 1], es[..n], ok);
      if es[n].Restarted? {
        assert StartsAt(es, n + 1);
        StartIsThere(ws[n + 1]);
      } else {
        StepKeepsExact(ws[n], es[n], ws[n + 1]);
      }
    }
  }

  /** In every run, whatever configs it changes between and whatever fails: as long as each start finds
      the interfaces apart and no default route left over, the installed sets lie in the kernel, and where
      the seed succeeded they are exactly the routes of ours. */
  lemma RunsKeepExact(ws: seq<World>, es: seq<Event>, ok: seq<TrackedInterface> -> bool)
    requires IsRun(ws, es, ok) && Start(ws[0])
    requires forall k :: 0 <= k <= |es| && StartsAt(es, k) ==> Apart(ws[k]) && NoLeftoverDefault(ws[k])
    ensures Apart(ws[|es|]) && Exact(ws[|es|])
    ensures var w := ws[|es|];
      forall i :: 0 <= i < |w.tracked| && w.tracked[i].index in w.seeded ==>
        OursOn(w.table, w.tracked[i].index) == Dests(EntryOf(w, w.tracked[i].index))
  {
    RunsStayExact(ws, es, ok);
    hide *;
    var w := ws[|es|];
    forall i | 0 <= i < |w.tracked| && w.tracked[i].index in w.seeded
      ensures OursOn(w.table, w.tracked[i].index) == Dests(EntryOf(w, w.tracked[i].index))
    {
      ExactIsEqual(w, i);
    }
  }

  // ---- Exactly these starts ----

  /** A run from `w` up to the next restart. */
  ghost predicate Epoch(w: World, ws: seq<World>, es: seq<Event>) {
    && |ws| == |es| + 1 && ws[0] == w
    && forall k :: 0 <= k < |es| ==> !es[k].Restarted? && Next(ws[k], es[k], ws[k + 1])
  }

  lemma {:induction false} EpochKeepsExact(w: World, ws: seq<World>, es: seq<Event>)
    requires Epoch(w, ws, es) && DistinctIndices(w.tracked) && Apart(w)
    requires AllInstalledIsThere(w)
    ensures var w' := ws[|es|];
      && w'.tracked == w.tracked && Apart(w') && AllInstalledIsThere(w')
      && (SeededKnowsAll(w) ==> SeededKnowsAll(w'))
  {
    if es == [] {
    } else {
      var n := |es| - 1;
      EpochKeepsExact(w, ws[..n + 1], es[..n]);
      StepKeepsExact(ws[n], es[n], ws[n + 1]);
    }
  }

  /** The event that interface `i` is reconciled while everyone is fresh, or nobody. */
  ghost function FreshEvent(w: World, i: nat, everyone: bool, change: Change): Event
    requires i < |w.tracked|
  {
    Reconciled(i, 1, if everyone then EveryoneFresh(w.tracked[i]) else map[], change)
  }

  lemma FreshStep(w: World, i: nat, everyone: bool, change: Change)
    requires i < |w.tracked| && w.tracked[i].staleSecs > 0
    requires Allowed(change, EntryOf(w, w.tracked[i].index), if everyone then AllowedTexts(w.tracked[i]) else {})
    ensures Next(w, FreshEvent(w, i, everyone, change), Changed(w, w.tracked[i].index, change))
  {
    FreshNeeds(w.tracked[i]);
  }

  lemma SeededSpelling(w: World, dev: Ifindex, t: Text)
    requires Start(w) && t in EntryOf(w, dev)
    ensures t == Format(t.dest) && t.dest in OursOn(w.table, dev)
  {}

  lemma AddedOn(w: World, dev: Ifindex, texts: set<Text>, t: Text)
    requires t in texts
    ensures var w' := Changed(w, dev, Change(texts, {}));
      && EntryOf(w', dev) == EntryOf(w, dev) + texts
      && t.dest in w'.table && w'.table[t.dest] == Route(dev, Ours)
  {
    assert t.dest in Dests(texts);
    assert Dests({}) == {};
  }

  lemma DroppedOn(w: World, dev: Ifindex, t: Text)
    requires t.dest in w.table && w.table[t.dest] == Route(dev, Ours)
    ensures var w' := Changed(w, dev, Change({}, {t}));
      EntryOf(w', dev) == EntryOf(w, dev) - {t} && t.dest !in w'.table
  {
    assert t in {t} && t.dest in Dests({t});
  }

  /** Two spellings of one destination: with both installed, deleting one takes the other's route. */
  lemma SpellingsBreak(w: World, i: nat, t: Text, u: Text) returns (ws: seq<World>, es: seq<Event>)
    requires i < |w.tracked| && w.tracked[i].staleSecs > 0
    requires t in Reach(w, i) && u in Reach(w, i) && t != u && t.dest == u.dest
    requires u !in EntryOf(w, w.tracked[i].index)
    ensures Epoch(w, ws, es) && !AllInstalledIsThere(ws[|es|])
  {
    var dev := w.tracked[i].index;
    var add := Change({t, u} - EntryOf(w, dev), {});
    FreshStep(w, i, true, add);
    AddedOn(w, dev, add.added, u);
    var w1 := Changed(w, dev, add);
    SameTracked(w, dev, add);
    ws, es := DropBreaks(w1, i, t, u);
    EpochFrom(w, FreshEvent(w, i, true, add), w1, ws, es);
    ws, es := [w] + ws, [FreshEvent(w, i, true, add)] + es;
  }

  lemma DropBreaks(w: World, i: nat, t: Text, u: Text) returns (ws: seq<World>, es: seq<Event>)
    requires i < |w.tracked| && w.tracked[i].staleSecs > 0 && t != u && t.dest == u.dest
    requires var dev := w.tracked[i].index;
      {t, u} <= EntryOf(w, dev) && u.dest in w.table && w.table[u.dest] == Route(dev, Ours)
    ensures Epoch(w, ws, es) && !AllInstalledIsThere(ws[|es|])
  {
    var dev := w.tracked[i].index;
    var drop := Change({}, {t});
    FreshStep(w, i, false, drop);
    DroppedOn(w, dev, t);
    var w1 := Changed(w, dev, drop);
    assert u in EntryOf(w1, dev) && u.dest !in OursOn(w1.table, dev);
    ws, es := [w, w1], [FreshEvent(w, i, false, drop)];
  }

  lemma SameTracked(w: World, dev: Ifindex, change: Change)
    ensures Changed(w, dev, change).tracked == w.tracked
  {}

  /** A destination installed for one interface and allowed on another: adding it for the other moves the
      route. */
  lemma TakenOver(w: World, i: nat, j: nat, t: Text, u: Text) returns (ws: seq<World>, es: seq<Event>)
    requires DistinctIndices(w.tracked) && i < |w.tracked| && j < |w.tracked| && i != j
    requires w.tracked[j].staleSecs > 0 && u in AllowedTexts(w.tracked[j]) && t.dest == u.dest
    requires var one := w.tracked[i].index; t in EntryOf(w, one) && t.dest in OursOn(w.table, one)
    ensures Epoch(w, ws, es) && !AllInstalledIsThere(ws[|es|])
  {
    var one, other := w.tracked[i].index, w.tracked[j].index;
    assert one != other;
    if u in EntryOf(w, other) {
      ws, es := [w], [];
      assert u.dest !in OursOn(w.table, other);
    } else {
      var add := Change({u}, {});
      FreshStep(w, j, true, add);
      AddedOn(w, other, {u}, u);
      var w1 := Changed(w, other, add);
      assert t in EntryOf(w1, one) && t.dest !in OursOn(w1.table, one);
      ws, es := [w, w1], [FreshEvent(w, j, true, add)];
    }
  }

  /** A destination that one interface has or allows and another allows: once the first has it, adding it
      for the second moves the route. */
  lemma MovedBreaks(w: World, i: nat, j: nat, t: Text, u: Text) returns (ws: seq<World>, es: seq<Event>)
    requires Start(w) && DistinctIndices(w.tracked) && i < |w.tracked| && j < |w.tracked| && i != j
    requires w.tracked[i].staleSecs > 0 && w.tracked[j].staleSecs > 0
    requires t in Reach(w, i) && u in AllowedTexts(w.tracked[j]) && t.dest == u.dest
    ensures Epoch(w, ws, es) && !AllInstalledIsThere(ws[|es|])
  {
    var one := w.tracked[i].index;
    if t in EntryOf(w, one) {
      SeededSpelling(w, one, t);
      ws, es := TakenOver(w, i, j, t, u);
    } else {
      var add := Change({t}, {});
      FreshStep(w, i, true, add);
      AddedOn(w, one, {t}, t);
      var w1 := Changed(w, one, add);
      SameTracked(w, one, add);
      ws, es := TakenOver(w1, i, j, t, u);
      EpochFrom(w, FreshEvent(w, i, true, add), w1, ws, es);
      ws, es := [w] + ws, [FreshEvent(w, i, true, add)] + es;
    }
  }

  lemma EpochFrom(w: World, e: Event, w1: World, ws: seq<World>, es: seq<Event>)
    requires Next(w, e, w1) && !e.Restarted? && Epoch(w1, ws, es)
    ensures Epoch(w, [w] + ws, [e] + es) && ([w] + ws)[|es| + 1] == ws[|es|]
  {
    hide Next;
  }

  /** Interface `i` has or allows the destination, and so does another's peer. */
  ghost predicate AlsoAllowed(w: World, i: nat, j: nat, d: Dest) {
    && i < |w.tracked| && j < |w.tracked| && i != j
    && d in Dests(Reach(w, i)) && d in Dests(AllowedTexts(w.tracked[j]))
  }

  lemma NotApartBreaks(w: World) returns (ws: seq<World>, es: seq<Event>)
    requires Start(w) && DistinctIndices(w.tracked) && !Apart(w)
    requires forall iface :: iface in w.tracked ==> iface.staleSecs > 0
    ensures Epoch(w, ws, es) && !AllInstalledIsThere(ws[|es|])
  {
    hide Epoch, AllInstalledIsThere, Start, Reach, AllowedTexts, EntryOf;
    if i: nat, j: nat, d: Dest :| AlsoAllowed(w, i, j, d) {
      var t :| t in Reach(w, i) && t.dest == d;
      var u :| u in AllowedTexts(w.tracked[j]) && u.dest == d;
      ws, es := MovedBreaks(w, i, j, t, u);
    } else {
      forall i, j, d | 0 <= i < |w.tracked| && 0 <= j < |w.tracked| && i != j
        ensures d !in Dests(Reach(w, i)) || d !in Dests(AllowedTexts(w.tracked[j]))
      {
        assert !AlsoAllowed(w, i, j, d);
      }
      var i :| 0 <= i < |w.tracked| && !OneSpelling(Reach(w, i));
      var t, u :| t in Reach(w, i) && u in Reach(w, i) && t.dest == u.dest && t != u;
      if u !in EntryOf(w, w.tracked[i].index) {
        ws, es := SpellingsBreak(w, i, t, u);
      } else {
        SeededSpelling(w, w.tracked[i].index, u);
        if t in EntryOf(w, w.tracked[i].index) {
          SeededSpelling(w, w.tracked[i].index, t);
        }
        ws, es := SpellingsBreak(w, i, u, t);
      }
    }
  }

  /** From a start up to the next restart: the installed sets lie in the kernel in all runs if and only if
      the start finds the interfaces apart; and they are exactly the routes of ours where the seed succeeded
      if and only if, besides, no default route is left over. */
  lemma ExactIff(w: World)
    requires Start(w) && DistinctIndices(w.tracked) && forall iface :: iface in w.tracked ==> iface.staleSecs > 0
    ensures (forall ws, es :: Epoch(w, ws, es) ==> AllInstalledIsThere(ws[|es|])) <==> Apart(w)
    ensures (forall ws, es :: Epoch(w, ws, es) ==> Exact(ws[|es|])) <==> Apart(w) && NoLeftoverDefault(w)
  {
    StartIsThere(w);
    if Apart(w) {
      forall ws, es | Epoch(w, ws, es)
        ensures AllInstalledIsThere(ws[|es|]) && (NoLeftoverDefault(w) ==> Exact(ws[|es|]))
      {
        EpochKeepsExact(w, ws, es);
      }
      var none: seq<Event> := [];
      assert Epoch(w, [w], none) && [w][|none|] == w;
    } else {
      var ws, es := NotApartBreaks(w);
      assert !Exact(ws[|es|]);
    }
  }

  /** For a sound config the interfaces are apart exactly when no seed read a destination that another
      interface's peer is allowed. */
  lemma SoundApartIff(w: World)
    requires Start(w) && Sound(w.tracked) && DistinctIndices(w.tracked)
    ensures Apart(w) <==> forall i, j :: 0 <= i < |w.tracked| && 0 <= j < |w.tracked| && i != j ==>
      Dests(EntryOf(w, w.tracked[i].index)) !! Dests(AllowedTexts(w.tracked[j]))
  {
    forall i | 0 <= i < |w.tracked|
      ensures OneSpelling(Reach(w, i))
      ensures Dests(Reach(w, i)) == Dests(EntryOf(w, w.tracked[i].index)) + Dests(AllowedTexts(w.tracked[i]))
    {
      assert WellSpelled(w.tracked[i]);
    }
    hide OneSpelling, Reach, AllowedTexts, Start, EntryOf, WellSpelled;
  }

  // ---- A CIDR moved to another interface ----

  const MovedKey: Key := "k"

  /** The new config: interface `two` has a peer that allows `d`, interface `one` has none any more. */
  function MovedConfig(one: Ifindex, two: Ifindex, d: Dest): seq<TrackedInterface> {
    [TrackedInterface("two", two, 180, map[MovedKey := [Format(d)]]), TrackedInterface("one", one, 180, map[])]
  }

  /** The daemon started with it, while the kernel still has the old config's route; both seeds are read. */
  ghost function MovedStart(one: Ifindex, two: Ifindex, d: Dest): World {
    var table := map[d := Route(one, Ours)];
    World(MovedConfig(one, two, d), table, map dev | dev in {one, two} :: Seed(table, dev), {one, two})
  }

  lemma MovedConfigIsSound(one: Ifindex, two: Ifindex, d: Dest)
    requires one != two && d.len != 0
    ensures var tracked := MovedConfig(one, two, d);
      && DistinctIndices(tracked) && Recoverable(tracked) && Indices(tracked) == {one, two}
      && AllowedTexts(tracked[0]) == {Format(d)} && AllowedTexts(tracked[1]) == {}
  {
    var tracked := MovedConfig(one, two, d);
    assert AllowedTexts(tracked[1]) == {} && Dests({}) == {};
    assert AllowedTexts(tracked[0]) == {Format(d)} by {
      assert MovedKey in tracked[0].peers && Format(d) in tracked[0].peers[MovedKey];
    }
    assert tracked[0] in tracked && tracked[1] in tracked;
  }

  lemma MovedSeeds(one: Ifindex, two: Ifindex, d: Dest)
    requires one != two && d.len != 0
    ensures var w := MovedStart(one, two, d);
      && Start(w) && NoDefaultOfOurs(w) && EntryOf(w, one) == {Format(d)} && EntryOf(w, two) == {}
      && OursOn(w.table, one) == {d}
  {
    var table := map[d := Route(one, Ours)];
    assert OursOn(table, one) == {d} && OursOn(table, two) == {};
    assert Seed(table, one) == {Format(d)} && Seed(table, two) == {};
  }

  /** A CIDR that a new config moves to another interface: the seed of its old interface still has it when
      the new one's reconciliation takes the route away. */
  lemma MovedCidrExample(one: Ifindex, two: Ifindex, d: Dest) returns (w: World, e: Event, w': World)
    requires one != two && d.len != 0
    ensures w == MovedStart(one, two, d) && Start(w) && NoDefaultOfOurs(w)
    ensures DistinctIndices(w.tracked) && Recoverable(w.tracked)
    ensures w.seeded == Indices(w.tracked) && Next(w, e, w') && e == FreshEvent(w, 0, true, Change({Format(d)}, {}))
    ensures w'.tracked == w.tracked && w'.seeded == w.seeded && OursOn(w.table, one) == {d}
    ensures InstalledIsThere(w') && EntryOf(w', one) == {Format(d)} && OursOn(w'.table, one) == {}
  {
    w := MovedStart(one, two, d);
    var add := Change({Format(d)}, {});
    MovedConfigIsSound(one, two, d);
    MovedSeeds(one, two, d);
    FreshStep(w, 0, true, add);
    e, w' := FreshEvent(w, 0, true, add), Changed(w, two, add);
    AddedOn(w, two, {Format(d)}, Format(d));
    OthersAfter(w.table, two, add, one);
    assert InstalledIsThere(w) && InstalledIsKnown(w);
    StepKeepsInstalled(w, e, w');
    hide *;
  }

  // ---- One config ----

  /** Every route of ours on a tracked interface is one its peers allow. */
  ghost predicate OnlyAllowed(w: World) {
    forall i :: 0 <= i < |w.tracked| ==> OursOn(w.table, w.tracked[i].index) <= Dests(AllowedTexts(w.tracked[i]))
  }

  ghost predicate OnlyAllowedInstalled(w: World) {
    forall i :: 0 <= i < |w.tracked| ==> EntryOf(w, w.tracked[i].index) <= AllowedTexts(w.tracked[i])
  }

  lemma SeedIsAllowed(w: World)
    requires Start(w) && Sound(w.tracked) && OnlyAllowed(w)
    ensures OnlyAllowedInstalled(w)
  {
    forall i, t | 0 <= i < |w.tracked| && t in EntryOf(w, w.tracked[i].index) ensures t in AllowedTexts(w.tracked[i]) {
      SeededSpelling(w, w.tracked[i].index, t);
      assert WellSpelled(w.tracked[i]);
      var u :| u in AllowedTexts(w.tracked[i]) && u.dest == t.dest;
      assert u == t;
    }
  }

  lemma StepKeepsAllowed(w: World, e: Event, w': World)
    requires Next(w, e, w') && w'.tracked == w.tracked && DistinctIndices(w.tracked) && Sound(w.tracked)
    requires OnlyAllowed(w) && OnlyAllowedInstalled(w)
    ensures OnlyAllowed(w') && OnlyAllowedInstalled(w')
  {
    if e.Restarted? {
      forall i, d | 0 <= i < |w.tracked| && d in OursOn(w'.table, w.tracked[i].index)
        ensures d in OursOn(w.table, w.tracked[i].index)
      {}
      SeedIsAllowed(w');
    } else if e.Reconciled? {
      var dev := w.tracked[e.i].index;
      assert e.change.added <= AllowedTexts(w.tracked[e.i]);
      assert Dests(e.change.added) <= Dests(AllowedTexts(w.tracked[e.i]));
      forall j | 0 <= j < |w.tracked|
        ensures OursOn(w'.table, w.tracked[j].index) <= Dests(AllowedTexts(w.tracked[j]))
        ensures EntryOf(w', w.tracked[j].index) <= AllowedTexts(w.tracked[j])
      {
        EntriesAfter(w, e, w', j);
        if j != e.i {
          OthersAfter(w.table, dev, e.change, w.tracked[j].index);
        }
      }
    }
  }

  lemma {:induction false} OneConfigKeepsAllowed(ws: seq<World>, es: seq<Event>, tracked: seq<TrackedInterface>)
    requires RunOf(ws, es, tracked) && Sound(tracked) && OnlyAllowed(ws[0])
    ensures OnlyAllowed(ws[|es|]) && OnlyAllowedInstalled(ws[|es|])
  {
    if es == [] {
      SeedIsAllowed(ws[0]);
    } else {
      var n := |es| - 1;
      assert RunOf(ws[..n + 1], es[..n], tracked);
      OneConfigKeepsAllowed(ws[..n + 1], es[..n], tracked);
      StepKeepsAllowed(ws[n], es[n], ws[n + 1]);
    }
  }

  /** A daemon that is only ever restarted with one config, over a kernel without routes of any other: all
      that is installed is in the kernel in every run, if and only if the config shares no destination
      between interfaces and spells each one the kernel's way. */
  lemma OneConfigIff(tracked: seq<TrackedInterface>)
    requires DistinctIndices(tracked) && forall iface :: iface in tracked ==> iface.staleSecs > 0
    ensures (forall ws, es :: RunOf(ws, es, tracked) && OnlyAllowed(ws[0]) ==> AllInstalledIsThere(ws[|es|])) <==>
      Sound(tracked)
  {
    hide Sound;
    if Sound(tracked) {
      forall ws, es | RunOf(ws, es, tracked) && OnlyAllowed(ws[0]) ensures AllInstalledIsThere(ws[|es|]) {
        OneConfigKeepsAllowed(ws, es, tracked);
        OneConfigIsRun(ws, es, tracked);
        RunsKeepInstalled(ws, es);
      }
    } else {
      var ws, es := UnsoundBreaks(tracked);
      assert OnlyAllowed(ws[0]);
    }
  }

  lemma OneConfigIsRun(ws: seq<World>, es: seq<Event>, tracked: seq<TrackedInterface>)
    requires RunOf(ws, es, tracked) && Sound(tracked)
    ensures IsRun(ws, es, Sound) && Start(ws[0])
  {}
}
