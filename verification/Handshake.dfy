/** The route tracking loop itself: `reconcile_pass`, the startup seed and the published snapshot, run
    against a kernel any of whose calls may fail. Every pass is one of `Passes`, a stretch of a run of
    the state machine in `RouteRuns`. */
module Handshake {
  import opened Passes
  import opened RouteRuns
  import opened Routes
  import opened Wrappers

  datatype Op = Add | Delete

  datatype Call = Call(op: Op, dev: Ifindex, text: Text, ok: bool)

  /** One read of an interface's routes. */
  datatype Read = Read(dev: Ifindex, ok: bool)

  ghost predicate AllOk(calls: seq<Call>) {
    forall c :: c in calls ==> c.ok
  }

  ghost predicate Done(calls: seq<Call>, op: Op, dev: Ifindex, text: Text) {
    Call(op, dev, text, true) in calls
  }

  ghost predicate Tried(calls: seq<Call>, op: Op, dev: Ifindex, text: Text) {
    Call(op, dev, text, true) in calls || Call(op, dev, text, false) in calls
  }

  /** The kernel's route table. Whether a call succeeds is not ours to say; one that fails changes
      nothing. */
  class Kernel {
    var table: Table
    ghost var calls: seq<Call>
    ghost var readings: seq<Read>

    constructor (routes: Table)
      ensures table == routes && calls == [] && readings == []
    {
      table, calls, readings := routes, [], [];
    }

    method RouteAdd(dev: Ifindex, text: Text) returns (ok: bool)
      modifies this`table, this`calls
      ensures table == if ok then AddAll(old(table), dev, {text.dest}) else old(table)
      ensures calls == old(calls) + [Call(Add, dev, text, ok)]
    {
      ok := *;
      if ok {
        table := table[text.dest := Route(dev, Ours)];
      }
      calls := calls + [Call(Add, dev, text, ok)];
    }

    method RouteDelete(dev: Ifindex, text: Text) returns (ok: bool)
      modifies this`table, this`calls
      ensures table == if ok then DeleteAll(old(table), dev, {text.dest}) else old(table)
      ensures calls == old(calls) + [Call(Delete, dev, text, ok)]
    {
      ok := *;
      if ok && text.dest in table && table[text.dest] == Route(dev, Ours) {
        table := table - {text.dest};
      }
      calls := calls + [Call(Delete, dev, text, ok)];
    }

    method RoutesByProtocol(dev: Ifindex) returns (routes: Option<set<Text>>)
      modifies this`readings
      ensures routes.Some? ==> routes.value == Seed(table, dev)
      ensures readings == old(readings) + [Read(dev, routes.Some?)]
    {
      var ok: bool := *;
      readings := readings + [Read(dev, ok)];
      if ok {
        routes := Some(Seed(table, dev));
      } else {
        routes := None;
      }
    }
  }

  // ---- One interface ----

  /** The texts the fresh ones among `keys` need. */
  ghost function NeededBy(iface: TrackedInterface, now: nat, dump: Dump, keys: set<Key>): set<Text>
    requires keys <= iface.peers.Keys
  {
    set key, t | key in keys && IsFresh(iface, now, dump, key) && t in iface.peers[key] :: t
  }

  lemma NeededByAll(iface: TrackedInterface, now: nat, dump: Dump)
    ensures NeededBy(iface, now, dump, iface.peers.Keys) == Needed(iface, now, dump)
  {}

  lemma NeededByMore(iface: TrackedInterface, now: nat, dump: Dump, keys: set<Key>, key: Key)
    requires keys <= iface.peers.Keys && key in iface.peers
    ensures NeededBy(iface, now, dump, keys + {key}) == NeededBy(iface, now, dump, keys)
      + (if IsFresh(iface, now, dump, key) then Listed(iface.peers[key]) else {})
  {}

  lemma AddOneMore(table: Table, dev: Ifindex, added: set<Text>, t: Text)
    ensures AddAll(AddAll(table, dev, Dests(added)), dev, {t.dest}) == AddAll(table, dev, Dests(added + {t}))
  {
    assert Dests(added + {t}) == Dests(added) + {t.dest} by {
      assert forall u :: u in added + {t} <==> u in added || u == t;
      assert t in added + {t};
    }
  }

  lemma DeleteOneMore(table: Table, dev: Ifindex, deleted: set<Text>, t: Text)
    ensures DeleteAll(DeleteAll(table, dev, Dests(deleted)), dev, {t.dest}) ==
      DeleteAll(table, dev, Dests(deleted + {t}))
  {
    assert Dests(deleted + {t}) == Dests(deleted) + {t.dest} by {
      assert forall u :: u in deleted + {t} <==> u in deleted || u == t;
      assert t in deleted + {t};
    }
  }

  /** The calls a reconciliation makes: adds of needed texts that were not installed, deletions of
      installed ones that are not needed. */
  ghost predicate CallsFit(calls: seq<Call>, dev: Ifindex, entry: set<Text>, need: set<Text>) {
    forall c :: c in calls ==>
      c.dev == dev && c.text in (if c.op == Add then need - entry else entry - need)
  }

  lemma OneMoreCall(calls: seq<Call>, c: Call)
    ensures forall op, dev, t :: Done(calls + [c], op, dev, t) <==>
      Done(calls, op, dev, t) || (c.ok && c.op == op && c.dev == dev && c.text == t)
    ensures forall op, dev, t :: Tried(calls + [c], op, dev, t) <==>
      Tried(calls, op, dev, t) || (c.op == op && c.dev == dev && c.text == t)
  {}

  lemma MoreTried(was: seq<Call>, mid: seq<Call>, now: seq<Call>)
    requires was <= mid <= now
    ensures forall op, dev, t :: Done(now[|was|..], op, dev, t) <==>
      Done(mid[|was|..], op, dev, t) || Done(now[|mid|..], op, dev, t)
    ensures forall op, dev, t :: Tried(now[|was|..], op, dev, t) <==>
      Tried(mid[|was|..], op, dev, t) || Tried(now[|mid|..], op, dev, t)
  {
    SplitCalls(was, mid, now);
  }

  lemma DoneIsTried(calls: seq<Call>, op: Op, dev: Ifindex)
    ensures forall t :: Done(calls, op, dev, t) ==> Tried(calls, op, dev, t)
  {}

  /** Exactly the adds of `added` succeeded. */
  ghost predicate Adds(calls: seq<Call>, dev: Ifindex, added: set<Text>) {
    forall t :: t in added <==> Done(calls, Add, dev, t)
  }

  ghost predicate Deletes(calls: seq<Call>, dev: Ifindex, deleted: set<Text>) {
    forall t :: t in deleted <==> Done(calls, Delete, dev, t)
  }

  ghost predicate AllTried(calls: seq<Call>, op: Op, dev: Ifindex, texts: set<Text>) {
    forall t :: t in texts ==> Tried(calls, op, dev, t)
  }

  ghost predicate OnlyAdds(calls: seq<Call>, dev: Ifindex, texts: set<Text>) {
    forall c :: c in calls ==> c.dev == dev && c.op == Add && c.text in texts
  }

  ghost function Listed(ips: seq<Text>): set<Text> {
    set t | t in ips
  }

  lemma ListedMore(ips: seq<Text>, i: nat)
    requires i < |ips|
    ensures Listed(ips[..i + 1]) == Listed(ips[..i]) + {ips[i]}
    ensures ips[i] in Listed(ips)
  {
    assert ips[..i + 1] == ips[..i] + [ips[i]];
  }

  /** Every text that is needed and not installed was tried to add, every one that is installed and not
      needed was tried to delete, and the change is what succeeded. */
  ghost predicate CallsCover(calls: seq<Call>, dev: Ifindex, entry: set<Text>, need: set<Text>, change: Change) {
    && Adds(calls, dev, change.added) && Deletes(calls, dev, change.deleted)
    && AllTried(calls, Add, dev, need - entry) && AllTried(calls, Delete, dev, entry - need)
  }

  lemma CoverIsClean(calls: seq<Call>, dev: Ifindex, entry: set<Text>, need: set<Text>, change: Change)
    requires CallsCover(calls, dev, entry, need, change) && Allowed(change, entry, need)
    ensures AllOk(calls) ==> Clean(change, entry, need)
  {
    if AllOk(calls) {
      forall t | t in need - entry ensures t in change.added {
        assert Tried(calls, Add, dev, t);
      }
      forall t | t in entry - need ensures t in change.deleted {
        assert Tried(calls, Delete, dev, t);
      }
    }
  }

  /** Since `was` there was exactly one read of every interface, in order. */
  ghost predicate ReadsEach(readings: seq<Read>, was: seq<Read>, tracked: seq<TrackedInterface>) {
    && was <= readings && |readings| == |was| + |tracked|
    && forall i :: 0 <= i < |tracked| ==> readings[|was| + i].dev == tracked[i].index
  }

  lemma OneMoreRead(readings: seq<Read>, was: seq<Read>, tracked: seq<TrackedInterface>, i: nat, ok: bool)
    requires i < |tracked| && ReadsEach(readings, was, tracked[..i])
    ensures ReadsEach(readings + [Read(tracked[i].index, ok)], was, tracked[..i + 1])
    ensures |was| <= |readings|
    ensures (readings + [Read(tracked[i].index, ok)])[|was|..] == readings[|was|..] + [Read(tracked[i].index, ok)]
  {}

  class Reconciler {
    const kernel: Kernel
    const tracked: seq<TrackedInterface>
    var installed: map<Ifindex, set<Text>>
    ghost var seeded: set<Ifindex>

    ghost function State(): World
      reads this, kernel
    {
      World(tracked, kernel.table, installed, seeded)
    }

    function Entry(dev: Ifindex): set<Text>
      reads this
    {
      if dev in installed then installed[dev] else {}
    }

    /** Startup: each interface's set is what the kernel still holds of this daemon's routes there; an
        interface whose read fails starts without one. */
    constructor (kernel: Kernel, tracked: seq<TrackedInterface>)
      modifies kernel`readings
      ensures this.kernel == kernel && this.tracked == tracked
      ensures ReadsEach(kernel.readings, old(kernel.readings), tracked)
      ensures forall dev :: dev in seeded <==> Read(dev, true) in kernel.readings[|old(kernel.readings)|..]
      ensures seeded <= Indices(tracked)
      ensures State() == World(tracked, kernel.table, map dev | dev in seeded :: Seed(kernel.table, dev), seeded)
    {
      this.kernel, this.tracked := kernel, tracked;
      installed, seeded := map[], {};
      new;
      for i := 0 to |tracked|
        invariant ReadsEach(kernel.readings, old(kernel.readings), tracked[..i])
        invariant forall dev :: dev in seeded <==> Read(dev, true) in kernel.readings[|old(kernel.readings)|..]
        invariant seeded <= Indices(tracked[..i])
        invariant installed == map dev | dev in seeded :: Seed(kernel.table, dev)
      {
        hide Seed, Indices, ReadsEach;
        var iface := tracked[i];
        MoreIndices(tracked, i);
        ghost var before := kernel.readings;
        var routes := kernel.RoutesByProtocol(iface.index);
        OneMoreRead(before, old(kernel.readings), tracked, i, routes.Some?);
        if routes.Some? {
          installed := installed[iface.index := routes.value];
          seeded := seeded + {iface.index};
        }
      }
      assert tracked[..|tracked|] == tracked;
    }

    /** One peer's routes: each is added unless it is there already; a failed add is skipped, and the next
        one tried. */
    method InstallPeer(dev: Ifindex, allowedIps: seq<Text>, entry: set<Text>, stillFresh: set<Text>)
        returns (entry': set<Text>, stillFresh': set<Text>, ghost added: set<Text>)
      requires stillFresh <= entry
      modifies kernel`table, kernel`calls
      ensures added <= Listed(allowedIps) - entry
      ensures entry' == entry + added
      ensures stillFresh' == stillFresh + Listed(allowedIps) * (entry + added)
      ensures kernel.table == AddAll(old(kernel.table), dev, Dests(added))
      ensures old(kernel.calls) <= kernel.calls
      ensures OnlyAdds(kernel.calls[|old(kernel.calls)|..], dev, Listed(allowedIps) - entry)
      ensures Adds(kernel.calls[|old(kernel.calls)|..], dev, added)
      ensures AllTried(kernel.calls[|old(kernel.calls)|..], Add, dev, Listed(allowedIps) - entry)
    {
      ghost var was, start := kernel.calls, kernel.table;
      entry', stillFresh', added := entry, stillFresh, {};
      AddMore(start, dev, {}, {});
      for i := 0 to |allowedIps|
        invariant added <= Listed(allowedIps[..i]) - entry
        invariant entry' == entry + added
        invariant stillFresh' == stillFresh + Listed(allowedIps[..i]) * (entry + added)
        invariant kernel.table == AddAll(start, dev, Dests(added))
        invariant was <= kernel.calls
        invariant OnlyAdds(kernel.calls[|was|..], dev, Listed(allowedIps) - entry)
        invariant Adds(kernel.calls[|was|..], dev, added)
        invariant AllTried(kernel.calls[|was|..], Add, dev, Listed(allowedIps[..i]) - entry)
      {
        hide Dests, AddAll, Done, Tried, Listed;
        var cidr := allowedIps[i];
        ListedMore(allowedIps, i);
        ghost var before := kernel.calls[|was|..];
        if cidr !in entry' {
          var ok := kernel.RouteAdd(dev, cidr);
          assert kernel.calls[|was|..] == before + [Call(Add, dev, cidr, ok)];
          OneMoreCall(before, Call(Add, dev, cidr, ok));
          if !ok {
            continue;
          }
          AddOneMore(start, dev, added, cidr);
          added := added + {cidr};
        } else {
          DoneIsTried(before, Add, dev);
        }
        entry' := entry' + {cidr};
        stillFresh' := stillFresh' + {cidr};
      }
      assert allowedIps[..|allowedIps|] == allowedIps;
    }

    /** Every fresh peer's routes, whatever order the peers come in. */
    method InstallFresh(iface: TrackedInterface, now: nat, dump: Dump, entry: set<Text>)
        returns (entry': set<Text>, stillFresh: set<Text>, ghost added: set<Text>)
      modifies kernel`table, kernel`calls
      ensures var need := Needed(iface, now, dump);
        && added <= need - entry
        && entry' == entry + added
        && stillFresh == need * (entry + added)
        && kernel.table == AddAll(old(kernel.table), iface.index, Dests(added))
        && old(kernel.calls) <= kernel.calls
        && CallsFit(kernel.calls[|old(kernel.calls)|..], iface.index, entry, need)
        && Adds(kernel.calls[|old(kernel.calls)|..], iface.index, added)
        && AllTried(kernel.calls[|old(kernel.calls)|..], Add, iface.index, need - entry)
        && (forall c :: c in kernel.calls[|old(kernel.calls)|..] ==> c.op == Add)
    {
      hide IsFresh;
      ghost var was := kernel.calls;
      ghost var start := kernel.table;
      entry', stillFresh, added := entry, {}, {};
      var todo := iface.peers.Keys;
      NeededByAll(iface, now, dump);
      AddMore(start, iface.index, {}, {});
      while todo != {}
        invariant todo <= iface.peers.Keys
        invariant added <= NeededBy(iface, now, dump, iface.peers.Keys - todo) - entry
        invariant entry' == entry + added
        invariant stillFresh == NeededBy(iface, now, dump, iface.peers.Keys - todo) * (entry + added)
        invariant kernel.table == AddAll(start, iface.index, Dests(added))
        invariant was <= kernel.calls
        invariant CallsFit(kernel.calls[|was|..], iface.index, entry, Needed(iface, now, dump))
        invariant Adds(kernel.calls[|was|..], iface.index, added)
        invariant AllTried(kernel.calls[|was|..], Add, iface.index,
          NeededBy(iface, now, dump, iface.peers.Keys - todo) - entry)
        invariant forall c :: c in kernel.calls[|was|..] ==> c.op == Add
        decreases todo
      {
        hide Dests, AddAll, NeededBy, Done, Tried;
        var key :| key in todo;
        ghost var done := iface.peers.Keys - todo;
        todo := todo - {key};
        assert iface.peers.Keys - todo == done + {key};
        NeededByMore(iface, now, dump, done, key);
        if !IsFresh(iface, now, dump, key) {
          continue;
        }
        ghost var calls, before := kernel.calls, added;
        ghost var more;
        entry', stillFresh, more := InstallPeer(iface.index, iface.peers[key], entry', stillFresh);
        added := added + more;
        AddMore(start, iface.index, before, more);
        SplitCalls(was, calls, kernel.calls);
        MoreTried(was, calls, kernel.calls);
        DoneIsTried(calls[|was|..], Add, iface.index);
        assert Listed(iface.peers[key]) <= Needed(iface, now, dump);
      }
      assert iface.peers.Keys - todo == iface.peers.Keys;
    }

    /** The stale routes go, whatever order they come in; one whose deletion fails stays known, and the next
        one is tried. */
    method RemoveStale(dev: Ifindex, entry: set<Text>, stale: set<Text>)
        returns (entry': set<Text>, ghost deleted: set<Text>)
      requires stale <= entry
      modifies kernel`table, kernel`calls
      ensures deleted <= stale && entry' == entry - deleted
      ensures kernel.table == DeleteAll(old(kernel.table), dev, Dests(deleted))
      ensures old(kernel.calls) <= kernel.calls
      ensures forall c :: c in kernel.calls[|old(kernel.calls)|..] ==> c.dev == dev && c.op == Delete && c.text in stale
      ensures Deletes(kernel.calls[|old(kernel.calls)|..], dev, deleted)
      ensures AllTried(kernel.calls[|old(kernel.calls)|..], Delete, dev, stale)
    {
      entry', deleted := entry, {};
      var todo := stale;
      while todo != {}
        invariant todo <= stale
        invariant deleted <= stale - todo && entry' == entry - deleted
        invariant kernel.table == DeleteAll(old(kernel.table), dev, Dests(deleted))
        invariant old(kernel.calls) <= kernel.calls
        invariant forall c :: c in kernel.calls[|old(kernel.calls)|..] ==>
          c.dev == dev && c.op == Delete && c.text in stale
        invariant Deletes(kernel.calls[|old(kernel.calls)|..], dev, deleted)
        invariant AllTried(kernel.calls[|old(kernel.calls)|..], Delete, dev, stale - todo)
        decreases todo
      {
        hide Dests, DeleteAll, Done, Tried;
        var cidr :| cidr in todo;
        todo := todo - {cidr};
        ghost var before := kernel.calls[|old(kernel.calls)|..];
        var ok := kernel.RouteDelete(dev, cidr);
        assert kernel.calls[|old(kernel.calls)|..] == before + [Call(Delete, dev, cidr, ok)];
        OneMoreCall(before, Call(Delete, dev, cidr, ok));
        if !ok {
          continue;
        }
        DeleteOneMore(old(kernel.table), dev, deleted, cidr);
        deleted := deleted + {cidr};
        entry' := entry' - {cidr};
      }
    }

    /** What changes is what the calls achieved, every call there is a reason for is made, whichever others
        fail, and no other. */
    method ReconcileInterface(iface: TrackedInterface, now: nat, dump: Dump) returns (ghost change: Change)
      modifies this`installed, kernel`table, kernel`calls
      ensures var entry, need := old(Entry(iface.index)), Needed(iface, now, dump);
        && Allowed(change, entry, need)
        && kernel.table == TableAfter(old(kernel.table), iface.index, change)
        && installed == old(installed)[iface.index := EntryAfter(entry, change)]
        && old(kernel.calls) <= kernel.calls
        && CallsFit(kernel.calls[|old(kernel.calls)|..], iface.index, entry, need)
        && CallsCover(kernel.calls[|old(kernel.calls)|..], iface.index, entry, need, change)
        && (AllOk(kernel.calls[|old(kernel.calls)|..]) ==> Clean(change, entry, need))
    {
      hide IsFresh, Needed;
      ghost var need := Needed(iface, now, dump);
      ghost var was := kernel.calls;
      var entry := Entry(iface.index);
      ghost var entry0 := entry;
      var stillFresh;
      ghost var added, deleted;
      entry, stillFresh, added := InstallFresh(iface, now, dump, entry);
      ghost var calls := kernel.calls;
      var stale := entry - stillFresh;
      assert stale == entry0 - need;
      entry, deleted := RemoveStale(iface.index, entry, stale);
      SplitCalls(was, calls, kernel.calls);
      change := Change(added, deleted);
      CoverIsClean(kernel.calls[|was|..], iface.index, entry0, need, change);
      installed := installed[iface.index := entry];
    }

    /** One pass over every interface; `dumps[i]` is what reading interface `i`'s handshakes gave. */
    method ReconcilePass(now: nat, dumps: seq<Option<Dump>>) returns (ghost ws: seq<World>, ghost es: seq<Event>)
      requires |dumps| == |tracked| && DistinctIndices(tracked)
      modifies this`installed, kernel`table, kernel`calls
      ensures IsPass(ws, es, old(State()), State(), now, dumps)
      ensures old(kernel.calls) <= kernel.calls
      ensures AllOk(kernel.calls[|old(kernel.calls)|..]) ==> NothingFailed(ws, es)
      ensures forall i :: 0 <= i < |tracked| ==>
        TurnCalls(old(State()), es[i], kernel.calls[|old(kernel.calls)|..], i, now, dumps[i])
      ensures forall i :: 0 <= i < |tracked| ==> InterfaceResult(old(State()), State(), i, now, dumps[i],
        AllOk(kernel.calls[|old(kernel.calls)|..]))
      ensures forall c :: c in kernel.calls[|old(kernel.calls)|..] ==> CallCalledFor(old(State()), c, now, dumps)
      ensures Sound(tracked) && InstalledIsThere(old(State())) && InstalledIsKnown(old(State())) ==>
        InstalledIsThere(State()) && InstalledIsKnown(State())
    {
      hide Needed, TableAfter, EntryAfter, Allowed, Clean, AllOk, CallsFit, CallCalledFor, InterfaceResult;
      hide Sound, InstalledIsThere, InstalledIsKnown, CallsCover, TurnCalls;
      ghost var start, was := State(), kernel.calls;
      ws, es := [start], [];
      for i := 0 to |tracked|
        invariant |es| == i && PassSoFar(ws, es, start, now, dumps) && ws[i] == State()
        invariant was <= kernel.calls
        invariant AllOk(kernel.calls[|was|..]) ==> NothingFailed(ws, es)
        invariant forall k :: 0 <= k < i ==> TurnCalls(start, es[k], kernel.calls[|was|..], k, now, dumps[k])
        invariant forall c :: c in kernel.calls[|was|..] ==> CallCalledFor(start, c, now, dumps)
        invariant forall c :: c in kernel.calls[|was|..] ==> c.dev in Indices(tracked[..i])
      {
        ghost var before, calls := State(), kernel.calls;
        ghost var e := DumpFailed(i);
        FirstIndices(tracked, i);
        if dumps[i].Some? {
          ghost var change := ReconcileInterface(tracked[i], now, dumps[i].value);
          e := Reconciled(i, now, dumps[i].value, change);
          SplitCalls(was, calls, kernel.calls);
          PassEntry(ws, es, start, now, dumps, i);
          CallsCalledFor(start, kernel.calls[|calls|..], i, now, dumps);
          TurnsGrow(start, es, was, calls, kernel.calls, now, dumps, i, change);
        } else {
          NoTurnCalls(start, kernel.calls[|was|..], i, now);
        }
        assert Next(before, e, State());
        ws, es := ws + [State()], es + [e];
      }
      PassResults(ws, es, start, State(), now, dumps, AllOk(kernel.calls[|was|..]));
      if Sound(tracked) && InstalledIsThere(start) && InstalledIsKnown(start) {
        PassKeepsInstalled(ws, es, start, now, dumps);
      }
    }

    method SnapshotFrom(now: nat) returns (snapshot: ReconcileSnapshot)
      ensures snapshot == ReconcileSnapshot(now, Connected(State()))
    {
      hide PeerInstalled;
      var connected: set<(string, Key)> := {};
      for i := 0 to |tracked|
        invariant connected == ConnectedOnFirst(State(), i)
      {
        var iface := tracked[i];
        var entry := Entry(iface.index);
        var todo := iface.peers.Keys;
        assert iface.peers.Keys - todo == {};
        while todo != {}
          invariant todo <= iface.peers.Keys
          invariant connected == ConnectedOnFirst(State(), i) + ConnectedOn(iface, entry, iface.peers.Keys - todo)
          decreases todo
        {
          var key :| key in todo;
          ghost var done := iface.peers.Keys - todo;
          todo := todo - {key};
          assert iface.peers.Keys - todo == done + {key};
          if PeerInstalled(iface, entry, key) {
            connected := connected + {(iface.name, key)};
          }
          ConnectedMore(iface, entry, done, key);
        }
        assert iface.peers.Keys - todo == iface.peers.Keys;
        ConnectedNext(State(), i);
      }
      snapshot := ReconcileSnapshot(now, connected);
    }
  }

  lemma AddMore(table: Table, dev: Ifindex, added: set<Text>, more: set<Text>)
    ensures AddAll(table, dev, Dests({})) == table
    ensures AddAll(AddAll(table, dev, Dests(added)), dev, Dests(more)) == AddAll(table, dev, Dests(added + more))
  {
    assert Dests(added + more) == Dests(added) + Dests(more);
  }

  /** Calls made in two stretches. */
  lemma SplitCalls(was: seq<Call>, mid: seq<Call>, now: seq<Call>)
    requires was <= mid <= now
    ensures forall c :: c in now[|was|..] <==> c in mid[|was|..] || c in now[|mid|..]
    ensures AllOk(now[|was|..]) <==> AllOk(mid[|was|..]) && AllOk(now[|mid|..])
  {
    assert now[|was|..] == mid[|was|..] + now[|mid|..];
  }

  /** What a pass does with interface `i`'s set: nothing when the dump failed; without failures, it
      becomes exactly what the fresh peers need. */
  ghost predicate InterfaceResult(w: World, w': World, i: nat, now: nat, dump: Option<Dump>, clean: bool)
    requires i < |w.tracked|
  {
    var dev := w.tracked[i].index;
    match dump
    case None => EntryOf(w', dev) == EntryOf(w, dev)
    case Some(peers) => clean ==> EntryOf(w', dev) == Needed(w.tracked[i], now, peers)
  }

  /** A call a pass may make: on an interface whose dump was read, the add of a text that is needed and
      was not installed, or the deletion of one that was installed and is not needed. */
  ghost predicate CallCalledFor(w: World, c: Call, now: nat, dumps: seq<Option<Dump>>)
    requires |dumps| == |w.tracked|
  {
    exists i :: 0 <= i < |w.tracked| && dumps[i].Some? && c.dev == w.tracked[i].index
      && var entry, need := EntryOf(w, c.dev), Needed(w.tracked[i], now, dumps[i].value);
         c.text in (if c.op == Add then need - entry else entry - need)
  }

  /** The calls of interface `i`'s turn: all there is a reason for, and the event's change is what succeeded;
      none when the dump failed. */
  ghost predicate TurnCalls(w: World, e: Event, calls: seq<Call>, i: nat, now: nat, dump: Option<Dump>)
    requires i < |w.tracked|
  {
    dump.Some? ==>
      && e.Reconciled?
      && var dev := w.tracked[i].index;
         CallsCover(calls, dev, EntryOf(w, dev), Needed(w.tracked[i], now, dump.value), e.change)
  }

  lemma NoTurnCalls(w: World, calls: seq<Call>, i: nat, now: nat)
    requires i < |w.tracked|
    ensures TurnCalls(w, DumpFailed(i), calls, i, now, None)
  {}

  lemma MoreIndices(tracked: seq<TrackedInterface>, i: nat)
    requires i < |tracked|
    ensures Indices(tracked[..i + 1]) == Indices(tracked[..i]) + {tracked[i].index}
  {
    assert tracked[..i + 1] == tracked[..i] + [tracked[i]];
  }

  lemma FirstIndices(tracked: seq<TrackedInterface>, i: nat)
    requires i < |tracked| && DistinctIndices(tracked)
    ensures Indices(tracked[..i + 1]) == Indices(tracked[..i]) + {tracked[i].index}
    ensures tracked[i].index !in Indices(tracked[..i])
    ensures forall k :: 0 <= k < i ==> tracked[k].index in Indices(tracked[..i])
  {
    MoreIndices(tracked, i);
    assert forall k :: 0 <= k < i ==> tracked[k] in tracked[..i];
  }

  /** Calls on other interfaces change nothing about a turn's. */
  lemma CoverStays(calls: seq<Call>, all: seq<Call>, dev: Ifindex, entry: set<Text>, need: set<Text>, change: Change)
    requires CallsCover(calls, dev, entry, need, change)
    requires forall c: Call :: c.dev == dev ==> (c in calls <==> c in all)
    ensures CallsCover(all, dev, entry, need, change)
  {
    forall op, t
      ensures Done(all, op, dev, t) <==> Done(calls, op, dev, t)
      ensures Tried(all, op, dev, t) <==> Tried(calls, op, dev, t)
    {}
    hide Done, Tried;
  }

  lemma TurnsGrow(w: World, es: seq<Event>, was: seq<Call>, calls: seq<Call>, all: seq<Call>, now: nat,
                  dumps: seq<Option<Dump>>, i: nat, change: Change)
    requires |dumps| == |w.tracked| && i < |w.tracked| && |es| == i && dumps[i].Some? && DistinctIndices(w.tracked)
    requires was <= calls <= all
    requires forall c :: c in calls[|was|..] ==> c.dev in Indices(w.tracked[..i])
    requires var dev := w.tracked[i].index; var need := Needed(w.tracked[i], now, dumps[i].value);
      && CallsFit(all[|calls|..], dev, EntryOf(w, dev), need)
      && CallsCover(all[|calls|..], dev, EntryOf(w, dev), need, change)
    requires forall k :: 0 <= k < i ==> TurnCalls(w, es[k], calls[|was|..], k, now, dumps[k])
    ensures forall k :: 0 <= k < i ==> TurnCalls(w, es[k], all[|was|..], k, now, dumps[k])
    ensures TurnCalls(w, Reconciled(i, now, dumps[i].value, change), all[|was|..], i, now, dumps[i])
    ensures forall c :: c in all[|was|..] ==> c.dev in Indices(w.tracked[..i + 1])
  {
    hide CallsCover, Needed, EntryOf;
    var dev := w.tracked[i].index;
    FirstIndices(w.tracked, i);
    SplitCalls(was, calls, all);
    CoverStays(all[|calls|..], all[|was|..], dev, EntryOf(w, dev), Needed(w.tracked[i], now, dumps[i].value), change);
    forall k | 0 <= k < i && dumps[k].Some? ensures TurnCalls(w, es[k], all[|was|..], k, now, dumps[k]) {
      var other := w.tracked[k].index;
      assert TurnCalls(w, es[k], calls[|was|..], k, now, dumps[k]);
      CoverStays(calls[|was|..], all[|was|..], other, EntryOf(w, other),
        Needed(w.tracked[k], now, dumps[k].value), es[k].change);
    }
  }

  lemma CallsCalledFor(w: World, calls: seq<Call>, i: nat, now: nat, dumps: seq<Option<Dump>>)
    requires |dumps| == |w.tracked| && i < |w.tracked| && dumps[i].Some?
    requires CallsFit(calls, w.tracked[i].index, EntryOf(w, w.tracked[i].index),
      Needed(w.tracked[i], now, dumps[i].value))
    ensures forall c :: c in calls ==> CallCalledFor(w, c, now, dumps)
  {}

  lemma PassResults(ws: seq<World>, es: seq<Event>, from: World, to: World, now: nat, dumps: seq<Option<Dump>>,
                    clean: bool)
    requires IsPass(ws, es, from, to, now, dumps) && DistinctIndices(from.tracked)
    requires clean ==> NothingFailed(ws, es)
    ensures forall i :: 0 <= i < |from.tracked| ==> InterfaceResult(from, to, i, now, dumps[i], clean)
  {
    hide EntryOf, Needed, Next, IsTurn, CleanTurn;
    forall i | 0 <= i < |from.tracked| ensures InterfaceResult(from, to, i, now, dumps[i], clean) {
      if dumps[i].None? {
        PassEntry(ws, es, from, now, dumps, i);
      } else if clean {
        CleanEntry(ws, es, from, to, now, dumps, i);
      }
    }
  }

  // ---- What passes achieve ----

  /** After a pass without failures, one with the same clock and dumps has no call to make. */
  lemma SecondPassIsQuiet(ws: seq<World>, es: seq<Event>, from: World, to: World, now: nat, dumps: seq<Option<Dump>>,
                          c: Call)
    requires IsPass(ws, es, from, to, now, dumps) && DistinctIndices(from.tracked) && NothingFailed(ws, es)
    ensures !CallCalledFor(to, c, now, dumps)
  {
    PassResults(ws, es, from, to, now, dumps, true);
  }

  /** Two passes with the same clock and dumps, in any reachable state: when no call of the first fails, it
      leaves exactly the needed routes and the second makes no call. */
  method ReconcileTwice(r: Reconciler, now: nat, dumps: seq<Option<Dump>>, ghost ws: seq<World>, ghost es: seq<Event>)
      returns (ghost first: seq<Call>, ghost second: seq<Call>)
    requires IsRun(ws, es, Recoverable) && Start(ws[0]) && NoDefaultOfOurs(ws[0]) && ws[|es|] == r.State()
    requires |dumps| == |r.tracked|
    modifies r, r.kernel
    ensures r.kernel.calls == old(r.kernel.calls) + first + second
    ensures AllOk(first) ==> second == []
    ensures AllOk(first) ==>
      forall i :: 0 <= i < |r.tracked| && r.tracked[i].index in r.seeded && dumps[i].Some? ==>
        OursOn(r.kernel.table, r.tracked[i].index) == Dests(Needed(r.tracked[i], now, dumps[i].value))
  {
    hide Recoverable, Needed, OursOn, Dests, PassSoFar, NothingFailed, CallCalledFor;
    ghost var was := r.kernel.calls;
    ghost var ps, qs := r.ReconcilePass(now, dumps);
    ghost var mid := r.State();
    ghost var calls := r.kernel.calls;
    first := calls[|was|..];
    ghost var ps', qs' := r.ReconcilePass(now, dumps);
    second := r.kernel.calls[|calls|..];
    if AllOk(first) {
      if second != [] {
        ghost var c := second[0];
        assert c in second;
        SecondPassIsQuiet(ps, qs, ws[|es|], mid, now, dumps, c);
        assert false;
      }
      assert AllOk(second);
      PassLengths(ps, qs, ws[|es|], now, dumps);
      PassExtends(ws, es, ps, qs, mid, now, dumps, Recoverable);
      SettledEverywhere(ws + ps[1..], es + qs, ps', qs', r.State(), now, dumps);
    }
  }

  lemma SettledEverywhere(ws: seq<World>, es: seq<Event>, ps: seq<World>, qs: seq<Event>, to: World,
                          now: nat, dumps: seq<Option<Dump>>)
    requires IsRun(ws, es, Recoverable) && Start(ws[0]) && NoDefaultOfOurs(ws[0])
    requires IsPass(ps, qs, ws[|es|], to, now, dumps) && NothingFailed(ps, qs)
    ensures forall i :: 0 <= i < |to.tracked| && to.tracked[i].index in to.seeded && dumps[i].Some? ==>
      OursOn(to.table, to.tracked[i].index) == Dests(Needed(to.tracked[i], now, dumps[i].value))
  {
    forall i | 0 <= i < |to.tracked| && to.tracked[i].index in to.seeded && dumps[i].Some?
      ensures OursOn(to.table, to.tracked[i].index) == Dests(Needed(to.tracked[i], now, dumps[i].value))
    {
      PassConverges(ws, es, ps, qs, to, now, dumps, i);
    }
  }

  lemma JustStarted(w: World)
    ensures Start(w) && DistinctIndices(w.tracked) && Recoverable(w.tracked) ==> IsRun([w], [], Recoverable)
  {}

  /** The first second of a daemon, over whatever an earlier one left in the kernel: on every interface
      whose routes and handshakes could be read, when no call fails, exactly the routes that fresh peers
      need are left of this daemon's. */
  method StartAndReconcile(kernel: Kernel, tracked: seq<TrackedInterface>, now: nat, dumps: seq<Option<Dump>>)
      returns (r: Reconciler)
    requires |dumps| == |tracked| && DistinctIndices(tracked) && Recoverable(tracked)
    requires forall dev, d :: d in OursOn(kernel.table, dev) ==> d.len != 0
    modifies kernel
    ensures r.kernel == kernel && r.tracked == tracked && old(kernel.calls) <= kernel.calls
    ensures ReadsEach(kernel.readings, old(kernel.readings), tracked)
    ensures AllOk(kernel.calls[|old(kernel.calls)|..]) ==>
      forall i :: 0 <= i < |tracked| && kernel.readings[|old(kernel.readings)| + i].ok && dumps[i].Some? ==>
        OursOn(kernel.table, tracked[i].index) == Dests(Needed(tracked[i], now, dumps[i].value))
  {
    hide Recoverable, DistinctIndices, Needed, AllOk, OursOn, Dests, PassSoFar, IsRun, Seed, NothingFailed;
    ghost var was := kernel.readings;
    r := new Reconciler(kernel, tracked);
    forall i | 0 <= i < |tracked| && kernel.readings[|was| + i].ok ensures tracked[i].index in r.seeded {
      assert kernel.readings[|was|..][i] == Read(tracked[i].index, true);
    }
    ghost var start := r.State();
    JustStarted(start);
    ghost var ps, qs := r.ReconcilePass(now, dumps);
    if AllOk(kernel.calls[|old(kernel.calls)|..]) {
      SettledEverywhere([start], [], ps, qs, r.State(), now, dumps);
    }
  }

  // ---- The snapshot ----

  /** Every one of the peer's routes is in the interface's set, and there is one at all. */
  predicate PeerInstalled(iface: TrackedInterface, entry: set<Text>, key: Key)
    requires key in iface.peers
  {
    iface.peers[key] != [] && forall t | t in iface.peers[key] :: t in entry
  }

  datatype ReconcileSnapshot = ReconcileSnapshot(takenUnix: nat, connected: set<(string, Key)>)

  ghost function ConnectedOn(iface: TrackedInterface, entry: set<Text>, keys: set<Key>): set<(string, Key)>
    requires keys <= iface.peers.Keys
  {
    set key | key in keys && PeerInstalled(iface, entry, key) :: (iface.name, key)
  }

  ghost function ConnectedOnFirst(w: World, n: nat): set<(string, Key)>
    requires n <= |w.tracked|
  {
    set i, pair | 0 <= i < n
      && pair in ConnectedOn(w.tracked[i], EntryOf(w, w.tracked[i].index), w.tracked[i].peers.Keys) :: pair
  }

  ghost function Connected(w: World): set<(string, Key)> {
    ConnectedOnFirst(w, |w.tracked|)
  }

  /** A peer reported connected has every one of its routes in the kernel, on its own interface. */
  lemma ConnectedIsRouted(ws: seq<World>, es: seq<Event>, pair: (string, Key))
    requires IsRun(ws, es, Sound) && Start(ws[0])
    requires pair in Connected(ws[|es|])
    ensures var w := ws[|es|];
      exists i :: 0 <= i < |w.tracked| && w.tracked[i].name == pair.0 && pair.1 in w.tracked[i].peers
        && w.tracked[i].peers[pair.1] != []
        && forall t :: t in w.tracked[i].peers[pair.1] ==> t.dest in OursOn(w.table, w.tracked[i].index)
  {
    RunsKeepInstalled(ws, es);
    var w := ws[|es|];
    var i :| 0 <= i < |w.tracked|
      && pair in ConnectedOn(w.tracked[i], EntryOf(w, w.tracked[i].index), w.tracked[i].peers.Keys);
    var iface := w.tracked[i];
    var entry := EntryOf(w, iface.index);
    assert PeerInstalled(iface, entry, pair.1) && iface.name == pair.0;
    forall t | t in iface.peers[pair.1] ensures t.dest in OursOn(w.table, w.tracked[i].index) {
      assert t in AllowedTexts(iface) && t in entry;
    }
  }

  /** The peer of this name and key has routes, and all of them are installed. */
  ghost predicate ReportsPeer(w: World, i: nat, pair: (string, Key)) {
    && i < |w.tracked| && w.tracked[i].name == pair.0 && pair.1 in w.tracked[i].peers
    && w.tracked[i].peers[pair.1] != []
    && forall t :: t in w.tracked[i].peers[pair.1] ==> t in EntryOf(w, w.tracked[i].index)
  }

  lemma ConnectedMeans(w: World, pair: (string, Key))
    ensures pair in Connected(w) <==> exists i: nat :: ReportsPeer(w, i, pair)
  {
    hide EntryOf;
    if pair in Connected(w) {
      var i :| 0 <= i < |w.tracked|
        && pair in ConnectedOn(w.tracked[i], EntryOf(w, w.tracked[i].index), w.tracked[i].peers.Keys);
      assert ReportsPeer(w, i, pair);
    }
    if i: nat :| ReportsPeer(w, i, pair) {
      assert pair in ConnectedOn(w.tracked[i], EntryOf(w, w.tracked[i].index), w.tracked[i].peers.Keys);
    }
  }

  /** Where the seed was read, and no other interface has the name, the report is right both ways. */
  lemma ConnectedIff(ws: seq<World>, es: seq<Event>, i: nat, key: Key)
    requires IsRun(ws, es, Recoverable) && Start(ws[0]) && NoDefaultOfOurs(ws[0])
    requires var w := ws[|es|];
      && i < |w.tracked| && w.tracked[i].index in w.seeded && key in w.tracked[i].peers
      && forall j :: 0 <= j < |w.tracked| && w.tracked[j].name == w.tracked[i].name ==> j == i
    ensures var w := ws[|es|]; var iface := w.tracked[i];
      (iface.name, key) in Connected(w) <==>
        iface.peers[key] != [] && forall t :: t in iface.peers[key] ==> t.dest in OursOn(w.table, iface.index)
  {
    assert IsRun(ws, es, Sound);
    RunsKeepInstalled(ws, es);
    RunsKeepComplete(ws, es);
    var w := ws[|es|];
    var iface := w.tracked[i];
    assert WellSpelled(iface);
    forall t | t in iface.peers[key] ensures t in EntryOf(w, iface.index) <==> t.dest in OursOn(w.table, iface.index) {
      assert t in AllowedTexts(iface);
      assert t == Format(t.dest);
    }
    hide IsRun, OursOn, EntryOf, SeededIsComplete, InstalledIsThere, Connected;
    ConnectedMeans(w, (iface.name, key));
    assert ReportsPeer(w, i, (iface.name, key)) ==> exists k: nat :: ReportsPeer(w, k, (iface.name, key));
  }

  /** After a pass that reads an interface's handshakes and fails no call there, a peer with a route that
      only silent peers have is not reported. */
  lemma SilentIsNotConnected(ws: seq<World>, es: seq<Event>, ps: seq<World>, qs: seq<Event>, to: World,
                             now: nat, dumps: seq<Option<Dump>>, i: nat, key: Key, t: Text)
    requires IsRun(ws, es, Recoverable) && Start(ws[0]) && NoDefaultOfOurs(ws[0])
    requires IsPass(ps, qs, ws[|es|], to, now, dumps)
    requires i < |to.tracked| && dumps[i].Some? && CleanTurn(ps[i], qs[i])
    requires forall j :: 0 <= j < |to.tracked| && to.tracked[j].name == to.tracked[i].name ==> j == i
    requires key in to.tracked[i].peers && t in to.tracked[i].peers[key]
    requires forall other :: other in to.tracked[i].peers && t in to.tracked[i].peers[other] ==>
      IsSilent(to.tracked[i], now, dumps[i].value, other)
    ensures (to.tracked[i].name, key) !in Connected(to)
  {
    assert t in AllowedTexts(to.tracked[i]);
    SilentRoutesGo(ws, es, ps, qs, to, now, dumps, i, t);
    hide IsPass, IsRun, EntryOf, OursOn, Connected;
    ConnectedMeans(to, (to.tracked[i].name, key));
  }

  lemma ConnectedMore(iface: TrackedInterface, entry: set<Text>, keys: set<Key>, key: Key)
    requires keys <= iface.peers.Keys && key in iface.peers
    ensures ConnectedOn(iface, entry, keys + {key}) == ConnectedOn(iface, entry, keys)
      + (if PeerInstalled(iface, entry, key) then {(iface.name, key)} else {})
  {
    hide PeerInstalled;
  }

  lemma ConnectedNext(w: World, i: nat)
    requires i < |w.tracked|
    ensures ConnectedOnFirst(w, i + 1) == ConnectedOnFirst(w, i)
      + ConnectedOn(w.tracked[i], EntryOf(w, w.tracked[i].index), w.tracked[i].peers.Keys)
  {
    hide ConnectedOn;
  }
}
