/** One pass over all interfaces, from any state a run can reach: what it does to the kernel's routes,
    whatever fails, and what it achieves where nothing does. */
module Passes {
  import opened Installed
  import opened RouteRuns
  import opened Routes
  import opened Wrappers

  /** Interface `k`'s turn: a reconciliation against the handshakes read, or nothing when the dump failed. */
  ghost predicate IsTurn(e: Event, k: nat, now: nat, dump: Option<Dump>) {
    match dump
    case None => e == DumpFailed(k)
    case Some(peers) => e.Reconciled? && e == Reconciled(k, now, peers, e.change)
  }

  /** The turns of the first `|es|` interfaces, in order. */
  ghost predicate PassSoFar(ws: seq<World>, es: seq<Event>, from: World, now: nat, dumps: seq<Option<Dump>>) {
    && |es| <= |dumps| == |from.tracked| && |ws| == |es| + 1 && ws[0] == from
    && (forall k :: 0 <= k < |ws| ==> ws[k].tracked == from.tracked && ws[k].seeded == from.seeded)
    && (forall k :: 0 <= k < |es| ==> Next(ws[k], es[k], ws[k + 1]) && IsTurn(es[k], k, now, dumps[k]))
  }

  ghost predicate IsPass(ws: seq<World>, es: seq<Event>, from: World, to: World, now: nat, dumps: seq<Option<Dump>>) {
    PassSoFar(ws, es, from, now, dumps) && |es| == |dumps| && ws[|es|] == to
  }

  /** No add and no deletion of the turn failed. */
  ghost predicate CleanTurn(w: World, e: Event) {
    e.Reconciled? && e.i < |w.tracked| ==>
      Clean(e.change, EntryOf(w, w.tracked[e.i].index), Needed(w.tracked[e.i], e.now, e.dump))
  }

  ghost predicate NothingFailed(ws: seq<World>, es: seq<Event>)
    requires |ws| == |es| + 1
  {
    forall k :: 0 <= k < |es| ==> CleanTurn(ws[k], es[k])
  }

  /** The destinations that other interfaces are missing, among those whose dump was read. */
  ghost function Taken(w: World, now: nat, dumps: seq<Option<Dump>>, i: nat): set<Dest>
    requires |dumps| == |w.tracked|
  {
    set j, t | 0 <= j < |w.tracked| && j != i && dumps[j].Some?
      && t in Needed(w.tracked[j], now, dumps[j].value) - EntryOf(w, w.tracked[j].index) :: t.dest
  }

  // ---- What a turn does to the other interfaces ----

  ghost function AddedBy(e: Event): set<Dest> {
    if e.Reconciled? then Dests(e.change.added) else {}
  }

  lemma OthersTurn(w: World, e: Event, w': World, k: nat, now: nat, dump: Option<Dump>, i: nat)
    requires Next(w, e, w') && IsTurn(e, k, now, dump) && DistinctIndices(w.tracked)
    requires i < |w.tracked| && k < |w.tracked| && (i != k || dump.None?)
    ensures EntryOf(w', w.tracked[i].index) == EntryOf(w, w.tracked[i].index)
    ensures OursOn(w'.table, w.tracked[i].index) == OursOn(w.table, w.tracked[i].index) - AddedBy(e)
  {
    if e.Reconciled? {
      OthersAfter(w.table, w.tracked[k].index, e.change, w.tracked[i].index);
    }
  }

  /** From turn `a` to turn `b` of a pass, none of them the interface's own: its set stays, and of its
      routes only destinations disappear that others were missing. */
  lemma {:induction false} OthersTurns(ws: seq<World>, es: seq<Event>, from: World, now: nat, dumps: seq<Option<Dump>>,
                                       a: nat, b: nat, i: nat)
    requires PassSoFar(ws, es, from, now, dumps) && DistinctIndices(from.tracked)
    requires a <= b <= |es| && i < |from.tracked| && (dumps[i].None? || !(a <= i < b))
    ensures var dev := from.tracked[i].index;
      && EntryOf(ws[b], dev) == EntryOf(ws[a], dev)
      && OursOn(ws[a].table, dev) - Taken(from, now, dumps, i) <= OursOn(ws[b].table, dev) <= OursOn(ws[a].table, dev)
    decreases b
  {
    if a == b {
    } else {
      var k := b - 1;
      OthersTurns(ws, es, from, now, dumps, a, k, i);
      OthersTurn(ws[k], es[k], ws[b], k, now, dumps[k], i);
      if dumps[k].Some? {
        OthersTurns(ws, es, from, now, dumps, 0, k, k);
        AddedIsTaken(ws[k], es[k], ws[b], from, k, now, dumps, i);
      }
    }
  }

  lemma AddedIsTaken(w: World, e: Event, w': World, from: World, k: nat, now: nat, dumps: seq<Option<Dump>>, i: nat)
    requires Next(w, e, w') && w.tracked == from.tracked && |dumps| == |from.tracked| && k < |from.tracked| && i != k
    requires dumps[k].Some? && IsTurn(e, k, now, dumps[k])
    requires EntryOf(w, from.tracked[k].index) == EntryOf(from, from.tracked[k].index)
    ensures AddedBy(e) <= Taken(from, now, dumps, i)
    ensures CleanTurn(w, e) ==>
      AddedBy(e) == Dests(Needed(from.tracked[k], now, dumps[k].value) - EntryOf(from, from.tracked[k].index))
  {
    hide Needed, EntryOf;
  }

  // ---- What a pass does to an interface ----

  /** The interface's set after a pass: untouched when its dump failed, else what its one turn made of it. */
  lemma PassEntry(ws: seq<World>, es: seq<Event>, from: World, now: nat, dumps: seq<Option<Dump>>, i: nat)
    requires PassSoFar(ws, es, from, now, dumps) && DistinctIndices(from.tracked) && i < |from.tracked|
    ensures var before, after := EntryOf(from, from.tracked[i].index), EntryOf(ws[|es|], from.tracked[i].index);
      && (dumps[i].None? || |es| <= i ==> after == before)
      && (dumps[i].Some? && i < |es| ==>
            EntryOf(ws[i], from.tracked[i].index) == before && after == EntryAfter(before, es[i].change))
  {
    if dumps[i].None? || |es| <= i {
      OthersTurns(ws, es, from, now, dumps, 0, |es|, i);
    } else {
      OthersTurns(ws, es, from, now, dumps, 0, i, i);
      assert Next(ws[i], es[i], ws[i + 1]) && IsTurn(es[i], i, now, dumps[i]);
      OthersTurns(ws, es, from, now, dumps, i + 1, |es|, i);
    }
  }

  lemma NeededIsAllowed(iface: TrackedInterface, now: nat, dump: Dump)
    ensures Needed(iface, now, dump) <= AllowedTexts(iface)
  {}

  lemma TakenIsOthers(w: World, now: nat, dumps: seq<Option<Dump>>, i: nat, d: Dest)
    requires |dumps| == |w.tracked| && d in Taken(w, now, dumps, i)
    ensures exists j :: 0 <= j < |w.tracked| && j != i && d in Dests(AllowedTexts(w.tracked[j]))
  {
    var j, t :| 0 <= j < |w.tracked| && j != i && dumps[j].Some?
      && t in Needed(w.tracked[j], now, dumps[j].value) - EntryOf(w, w.tracked[j].index) && t.dest == d;
    NeededIsAllowed(w.tracked[j], now, dumps[j].value);
  }

  lemma NoneTakenOfAllowed(w: World, now: nat, dumps: seq<Option<Dump>>, i: nat)
    requires |dumps| == |w.tracked| && i < |w.tracked| && NoneShared(w.tracked)
    ensures Taken(w, now, dumps, i) !! Dests(AllowedTexts(w.tracked[i]))
  {
    hide Taken, AllowedTexts;
    forall d | d in Taken(w, now, dumps, i) ensures d !in Dests(AllowedTexts(w.tracked[i])) {
      TakenIsOthers(w, now, dumps, i, d);
    }
  }

  /** What is installed for the peers of a sound config stays in the kernel over a pass. */
  lemma {:induction false} PassKeepsInstalled(ps: seq<World>, qs: seq<Event>, from: World, now: nat,
                                              dumps: seq<Option<Dump>>)
    requires PassSoFar(ps, qs, from, now, dumps) && DistinctIndices(from.tracked) && Sound(from.tracked)
    requires InstalledIsThere(from) && InstalledIsKnown(from)
    ensures InstalledIsThere(ps[|qs|]) && InstalledIsKnown(ps[|qs|])
  {
    if qs == [] {
    } else {
      var n := |qs| - 1;
      PassKeepsInstalled(ps[..n + 1], qs[..n], from, now, dumps);
      StepKeepsInstalled(ps[n], qs[n], ps[n + 1]);
    }
  }

  /** From any state a run of sound configs can reach, whatever fails in the pass: on an interface whose
      dump was read no route that a fresh peer needs goes, what is missing does not grow, and what is too
      much does not grow; on one whose dump failed no route of its own peers goes and none appears. */
  lemma PassNeverAway(ws: seq<World>, es: seq<Event>, ps: seq<World>, qs: seq<Event>, to: World,
                      now: nat, dumps: seq<Option<Dump>>, i: nat)
    requires IsRun(ws, es, Sound) && Start(ws[0]) && IsPass(ps, qs, ws[|es|], to, now, dumps) && i < |to.tracked|
    ensures var iface := to.tracked[i];
      var before, after := OursOn(ws[|es|].table, iface.index), OursOn(to.table, iface.index);
      match dumps[i]
      case Some(peers) =>
        var need := Dests(Needed(iface, now, peers));
        need * before <= after && need - after <= need - before && after - need <= before - need
      case None => Dests(AllowedTexts(iface)) * before <= after <= before
  {
    RunsKeepInstalled(ws, es);
    var from := ws[|es|];
    var iface := from.tracked[i];
    NoneTakenOfAllowed(from, now, dumps, i);
    if dumps[i].None? {
      OthersTurns(ps, qs, from, now, dumps, 0, |qs|, i);
    } else {
      var e := qs[i];
      assert Next(ps[i], e, ps[i + 1]) && IsTurn(e, i, now, dumps[i]);
      OthersTurns(ps, qs, from, now, dumps, 0, i, i);
      OthersTurns(ps, qs, from, now, dumps, i + 1, |qs|, i);
      var need := Needed(iface, now, dumps[i].value);
      assert WellSpelled(iface);
      NeededIsAllowed(iface, now, dumps[i].value);
      NeverAway(ps[i].table, iface.index, EntryOf(from, iface.index), need, e.change);
      assert Dests(need) <= Dests(AllowedTexts(iface));
    }
  }

  // ---- An interface whose dump failed ----

  /** Without failures it loses exactly the routes whose destinations others were missing. */
  lemma CleanPassTakes(ps: seq<World>, qs: seq<Event>, from: World, to: World, now: nat, dumps: seq<Option<Dump>>,
                       i: nat)
    requires IsPass(ps, qs, from, to, now, dumps) && DistinctIndices(from.tracked) && NothingFailed(ps, qs)
    requires i < |from.tracked| && dumps[i].None?
    ensures var dev := from.tracked[i].index;
      OursOn(to.table, dev) == OursOn(from.table, dev) - Taken(from, now, dumps, i)
  {
    var dev := from.tracked[i].index;
    OthersTurns(ps, qs, from, now, dumps, 0, |qs|, i);
    forall d | d in Taken(from, now, dumps, i) ensures d !in OursOn(to.table, dev) {
      var j, t :| 0 <= j < |from.tracked| && j != i && dumps[j].Some?
        && t in Needed(from.tracked[j], now, dumps[j].value) - EntryOf(from, from.tracked[j].index) && t.dest == d;
      hide Taken, Needed, EntryOf, Next, OursOn;
      OthersTurns(ps, qs, from, now, dumps, 0, j, j);
      AddedIsTaken(ps[j], qs[j], ps[j + 1], from, j, now, dumps, i);
      OthersTurn(ps[j], qs[j], ps[j + 1], j, now, dumps[j], i);
      OthersTurns(ps, qs, from, now, dumps, j + 1, |qs|, i);
    }
  }

  /** A pass without failures there always is. */
  lemma {:induction false} CleanPass(from: World, now: nat, dumps: seq<Option<Dump>>, n: nat)
      returns (ps: seq<World>, qs: seq<Event>)
    requires n <= |dumps| == |from.tracked|
    ensures PassSoFar(ps, qs, from, now, dumps) && |qs| == n && NothingFailed(ps, qs)
  {
    if n == 0 {
      ps, qs := [from], [];
    } else {
      ps, qs := CleanPass(from, now, dumps, n - 1);
      var w := ps[n - 1];
      var e, w' := CleanNext(w, n - 1, now, dumps[n - 1]);
      hide Next, IsTurn, CleanTurn;
      ps, qs := ps + [w'], qs + [e];
    }
  }

  lemma CleanNext(w: World, k: nat, now: nat, dump: Option<Dump>) returns (e: Event, w': World)
    requires k < |w.tracked|
    ensures Next(w, e, w') && IsTurn(e, k, now, dump) && CleanTurn(w, e)
    ensures w'.tracked == w.tracked && w'.seeded == w.seeded
  {
    match dump
    case None => e, w' := DumpFailed(k), w;
    case Some(peers) =>
      var dev := w.tracked[k].index;
      var need := Needed(w.tracked[k], now, peers);
      var change := Change(need - EntryOf(w, dev), EntryOf(w, dev) - need);
      e, w' := Reconciled(k, now, peers, change), Changed(w, dev, change);
  }

  /** The routes of an interface whose dump failed are left as they are, in every pass, if and only if none
      of them has a destination that another interface is missing. */
  lemma UntouchedIff(from: World, now: nat, dumps: seq<Option<Dump>>, i: nat)
    requires |dumps| == |from.tracked| && DistinctIndices(from.tracked) && i < |from.tracked| && dumps[i].None?
    ensures var dev := from.tracked[i].index;
      (forall ps, qs, to :: IsPass(ps, qs, from, to, now, dumps) ==> OursOn(to.table, dev) == OursOn(from.table, dev))
      <==> Taken(from, now, dumps, i) !! OursOn(from.table, dev)
  {
    var dev := from.tracked[i].index;
    var ours := OursOn(from.table, dev);
    hide OursOn, Taken, PassSoFar;
    if Taken(from, now, dumps, i) !! ours {
      forall ps, qs, to | IsPass(ps, qs, from, to, now, dumps) ensures OursOn(to.table, dev) == ours {
        PassLengths(ps, qs, from, now, dumps);
        OthersTurns(ps, qs, from, now, dumps, 0, |qs|, i);
      }
    } else {
      var ps, qs := CleanPass(from, now, dumps, |dumps|);
      PassLengths(ps, qs, from, now, dumps);
      assert IsPass(ps, qs, from, ps[|qs|], now, dumps);
      CleanPassTakes(ps, qs, from, ps[|qs|], now, dumps, i);
    }
  }

  lemma PassLengths(ps: seq<World>, qs: seq<Event>, from: World, now: nat, dumps: seq<Option<Dump>>)
    requires PassSoFar(ps, qs, from, now, dumps)
    ensures |ps| == |qs| + 1 && ps[0] == from && |qs| <= |dumps| == |from.tracked|
  {}

  /** As long as the interfaces are apart, one that was seeded is left alone by a pass that cannot read its
      handshakes. */
  lemma ApartIsUntouched(ps: seq<World>, qs: seq<Event>, from: World, to: World, now: nat, dumps: seq<Option<Dump>>,
                         i: nat)
    requires IsPass(ps, qs, from, to, now, dumps) && DistinctIndices(from.tracked) && Apart(from)
      && SeededKnowsAll(from)
    requires i < |from.tracked| && dumps[i].None? && from.tracked[i].index in from.seeded
    ensures OursOn(to.table, from.tracked[i].index) == OursOn(from.table, from.tracked[i].index)
  {
    var dev := from.tracked[i].index;
    forall d | d in OursOn(from.table, dev) ensures d !in Taken(from, now, dumps, i) {
      assert d in Dests(Reach(from, i));
      if d in Taken(from, now, dumps, i) {
        TakenIsOthers(from, now, dumps, i, d);
        assert false;
      }
    }
    UntouchedIff(from, now, dumps, i);
  }

  /** A new config has moved a CIDR to interface `two`, and the first dump of `one` fails: its route is gone
      all the same, while its set still has it. */
  lemma FailedDumpLosesRoute(one: Ifindex, two: Ifindex, d: Dest)
      returns (ps: seq<World>, qs: seq<Event>, to: World)
    requires one != two && d.len != 0
    ensures var from := MovedStart(one, two, d);
      && Start(from) && Recoverable(from.tracked) && DistinctIndices(from.tracked) && NoDefaultOfOurs(from)
      && IsPass(ps, qs, from, to, 1, [Some(EveryoneFresh(from.tracked[0])), None])
      && OursOn(from.table, one) == {d} && OursOn(to.table, one) == {} && EntryOf(to, one) == {Format(d)}
  {
    var from, e, w' := MovedCidrExample(one, two, d);
    ps, qs, to := [from, w', w'], [e, DumpFailed(1)], w';
    hide Next, EntryOf, OursOn, Recoverable, DistinctIndices, NoDefaultOfOurs, Start, PassSoFar;
    TwoTurns(from, e, w', 1, EveryoneFresh(from.tracked[0]));
  }

  lemma TwoTurns(from: World, e: Event, to: World, now: nat, peers: Dump)
    requires |from.tracked| == 2 && Next(from, e, to) && IsTurn(e, 0, now, Some(peers))
    requires to.tracked == from.tracked && to.seeded == from.seeded
    ensures IsPass([from, to, to], [e, DumpFailed(1)], from, to, now, [Some(peers), None])
  {}

  // ---- What a pass achieves ----

  lemma {:induction false} PassExtends(ws: seq<World>, es: seq<Event>, ps: seq<World>, qs: seq<Event>, to: World,
                                       now: nat, dumps: seq<Option<Dump>>, ok: seq<TrackedInterface> -> bool)
    requires IsRun(ws, es, ok) && IsPass(ps, qs, ws[|es|], to, now, dumps)
    ensures IsRun(ws + ps[1..], es + qs, ok)
    ensures (ws + ps[1..])[|es + qs|] == to && (ws + ps[1..])[0] == ws[0]
  {
    hide Next;
    var all, events := ws + ps[1..], es + qs;
    forall k | 0 <= k < |events| ensures Next(all[k], events[k], all[k + 1]) {
      if k < |es| {
        assert all[k] == ws[k] && all[k + 1] == ws[k + 1];
      } else {
        assert all[k] == ps[k - |es|] && all[k + 1] == ps[k - |es| + 1];
      }
    }
  }

  lemma CleanEntry(ps: seq<World>, qs: seq<Event>, from: World, to: World, now: nat, dumps: seq<Option<Dump>>, i: nat)
    requires IsPass(ps, qs, from, to, now, dumps) && DistinctIndices(from.tracked)
    requires i < |from.tracked| && dumps[i].Some? && CleanTurn(ps[i], qs[i])
    ensures EntryOf(to, from.tracked[i].index) == Needed(from.tracked[i], now, dumps[i].value)
  {
    PassEntry(ps, qs, from, now, dumps, i);
    assert IsTurn(qs[i], i, now, dumps[i]);
    hide EntryOf, Needed;
  }

  /** From any reachable state, whatever configs the daemon was restarted with: a pass that reads an
      interface's handshakes and fails no call there leaves of our routes on it, where its seed was read,
      exactly those its fresh peers need. */
  lemma PassConverges(ws: seq<World>, es: seq<Event>, ps: seq<World>, qs: seq<Event>, to: World,
                      now: nat, dumps: seq<Option<Dump>>, i: nat)
    requires IsRun(ws, es, Recoverable) && Start(ws[0]) && NoDefaultOfOurs(ws[0])
    requires IsPass(ps, qs, ws[|es|], to, now, dumps)
    requires i < |to.tracked| && to.tracked[i].index in to.seeded && dumps[i].Some? && CleanTurn(ps[i], qs[i])
    ensures OursOn(to.table, to.tracked[i].index) == Dests(Needed(to.tracked[i], now, dumps[i].value))
  {
    CleanEntry(ps, qs, ws[|es|], to, now, dumps, i);
    PassExtends(ws, es, ps, qs, to, now, dumps, Recoverable);
    NeededIsAllowed(to.tracked[i], now, dumps[i].value);
    SettledIsExact(ws + ps[1..], es + qs, i);
  }

  /** So no route of an earlier config is left there - none at all where no peer is tracked any more. */
  lemma NothingIsLeftOver(ws: seq<World>, es: seq<Event>, ps: seq<World>, qs: seq<Event>, to: World,
                          now: nat, dumps: seq<Option<Dump>>, i: nat)
    requires IsRun(ws, es, Recoverable) && Start(ws[0]) && NoDefaultOfOurs(ws[0])
    requires IsPass(ps, qs, ws[|es|], to, now, dumps)
    requires i < |to.tracked| && to.tracked[i].index in to.seeded && dumps[i].Some? && CleanTurn(ps[i], qs[i])
    ensures OursOn(to.table, to.tracked[i].index) <= Dests(AllowedTexts(to.tracked[i]))
    ensures to.tracked[i].peers == map[] ==> OursOn(to.table, to.tracked[i].index) == {}
  {
    PassConverges(ws, es, ps, qs, to, now, dumps, i);
    NeededIsAllowed(to.tracked[i], now, dumps[i].value);
  }

  /** Such a pass leaves no route that only silent peers have: its text is not installed, and it is gone
      from the kernel where the seed was read or the text was installed. */
  lemma SilentRoutesGo(ws: seq<World>, es: seq<Event>, ps: seq<World>, qs: seq<Event>, to: World,
                       now: nat, dumps: seq<Option<Dump>>, i: nat, t: Text)
    requires IsRun(ws, es, Recoverable) && Start(ws[0]) && NoDefaultOfOurs(ws[0])
    requires IsPass(ps, qs, ws[|es|], to, now, dumps)
    requires i < |to.tracked| && dumps[i].Some? && CleanTurn(ps[i], qs[i]) && t in AllowedTexts(to.tracked[i])
    requires forall key :: key in to.tracked[i].peers && t in to.tracked[i].peers[key] ==>
      IsSilent(to.tracked[i], now, dumps[i].value, key)
    ensures var dev := to.tracked[i].index;
      && t !in EntryOf(to, dev)
      && (dev in to.seeded || t in EntryOf(ws[|es|], dev) ==> t.dest !in OursOn(to.table, dev))
  {
    var from, iface, dump := ws[|es|], to.tracked[i], dumps[i].value;
    NeededIff(iface, now, dump, t);
    CleanEntry(ps, qs, from, to, now, dumps, i);
    if iface.index in to.seeded {
      PassConverges(ws, es, ps, qs, to, now, dumps, i);
      NotNeededNotThere(iface, now, dump, t);
    } else if t in EntryOf(from, iface.index) {
      InstalledIsDeleted(ws, es, ps, qs, to, now, dumps, i, t);
    }
  }

  lemma NotNeededNotThere(iface: TrackedInterface, now: nat, dump: Dump, t: Text)
    requires WellSpelled(iface) && t in AllowedTexts(iface) && t !in Needed(iface, now, dump)
    ensures t.dest !in Dests(Needed(iface, now, dump))
  {
    NeededIsAllowed(iface, now, dump);
    hide Needed, AllowedTexts;
  }

  lemma InstalledIsDeleted(ws: seq<World>, es: seq<Event>, ps: seq<World>, qs: seq<Event>, to: World,
                           now: nat, dumps: seq<Option<Dump>>, i: nat, t: Text)
    requires IsRun(ws, es, Sound) && Start(ws[0]) && IsPass(ps, qs, ws[|es|], to, now, dumps)
    requires i < |to.tracked| && dumps[i].Some? && CleanTurn(ps[i], qs[i])
    requires t in EntryOf(ws[|es|], to.tracked[i].index) && t !in Needed(to.tracked[i], now, dumps[i].value)
    ensures t.dest !in OursOn(to.table, to.tracked[i].index)
  {
    RunsKeepInstalled(ws, es);
    var from, e := ws[|es|], qs[i];
    var iface := from.tracked[i];
    var need := Needed(iface, now, dumps[i].value);
    assert Next(ps[i], e, ps[i + 1]) && IsTurn(e, i, now, dumps[i]);
    OthersTurns(ps, qs, from, now, dumps, 0, i, i);
    OthersTurns(ps, qs, from, now, dumps, i + 1, |qs|, i);
    assert WellSpelled(iface);
    NeededIsAllowed(iface, now, dumps[i].value);
    OursAfter(ps[i].table, iface.index, EntryOf(from, iface.index), need, e.change);
    assert t in e.change.deleted;
    assert t.dest in Dests(e.change.deleted);
  }

  /** And every route of a peer that is not silent is there. */
  lemma HeardRoutesAreThere(ws: seq<World>, es: seq<Event>, ps: seq<World>, qs: seq<Event>, to: World,
                            now: nat, dumps: seq<Option<Dump>>, i: nat, key: Key, t: Text)
    requires IsRun(ws, es, Sound) && Start(ws[0]) && IsPass(ps, qs, ws[|es|], to, now, dumps)
    requires i < |to.tracked| && dumps[i].Some? && CleanTurn(ps[i], qs[i])
    requires key in to.tracked[i].peers && t in to.tracked[i].peers[key]
    requires !IsSilent(to.tracked[i], now, dumps[i].value, key)
    ensures t in EntryOf(to, to.tracked[i].index) && t.dest in OursOn(to.table, to.tracked[i].index)
  {
    var from, iface := ws[|es|], to.tracked[i];
    NeededIff(iface, now, dumps[i].value, t);
    NeededIsAllowed(iface, now, dumps[i].value);
    CleanEntry(ps, qs, from, to, now, dumps, i);
    PassExtends(ws, es, ps, qs, to, now, dumps, Sound);
    RunsKeepInstalled(ws + ps[1..], es + qs);
  }

  /** A route of another protocol stays, unless a peer's own allowed destination replaces it; and a pass
      makes none. */
  lemma {:induction false} PassKeepsForeign(ps: seq<World>, qs: seq<Event>, from: World, now: nat,
                                            dumps: seq<Option<Dump>>, d: Dest)
    requires PassSoFar(ps, qs, from, now, dumps)
    ensures var to := ps[|qs|];
      && (d in to.table && to.table[d].proto.Foreign? ==> d in from.table && from.table[d] == to.table[d])
      && (&& d in from.table && from.table[d].proto.Foreign?
          && (forall i :: 0 <= i < |from.tracked| ==> d !in Dests(AllowedTexts(from.tracked[i])))
          ==> d in to.table && to.table[d] == from.table[d])
  {
    if qs == [] {
    } else {
      var n := |qs| - 1;
      var mid, e := ps[n], qs[n];
      PassKeepsForeign(ps[..n + 1], qs[..n], from, now, dumps, d);
      assert Next(mid, e, ps[n + 1]) && IsTurn(e, n, now, dumps[n]);
      if e.Reconciled? {
        var iface := mid.tracked[n];
        ForeignAfter(mid.table, iface.index, e.change, d);
        NeededIsAllowed(iface, now, e.dump);
        assert Dests(e.change.added) <= Dests(AllowedTexts(iface));
      }
    }
  }
}
