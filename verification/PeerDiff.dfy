/** Bringing an interface's peers from what the kernel has to what the config wants. */
module PeerDiff {
  import opened Lists
  import opened Wrappers

  datatype Peer = Peer(publicKey: string, allowedIps: seq<string>, endpoint: Option<string>, advancedSecurity: bool)

  /** A peer as configured; `allowedIps` unset means the full tunnel. */
  datatype PeerEntry = PeerEntry(publicKey: string, allowedIps: Option<seq<string>>, endpoint: Option<string>,
    advancedSecurity: bool)

  /** A peer to put in place, or to remove. */
  datatype Op = Op(key: string, peer: Option<Peer>)

  const FULL_TUNNEL := ["0.0.0.0/0", "::/0"]

  type Peers = map<string, Peer>

  /** By public key; of two peers of one key the later. */
  function ByKey(peers: seq<Peer>): Peers {
    if peers == [] then map[]
    else ByKey(peers[..|peers| - 1])[peers[|peers| - 1].publicKey := peers[|peers| - 1]]
  }

  /** The same peer but for the order and repetition of its allowed IPs. */
  predicate SamePeer(a: Peer, b: Peer) {
    && a.publicKey == b.publicKey
    && (set ip | ip in a.allowedIps) == (set ip | ip in b.allowedIps)
    && a.endpoint == b.endpoint
    && a.advancedSecurity == b.advancedSecurity
  }

  ghost predicate SamePeers(a: Peers, b: Peers) {
    a.Keys == b.Keys && forall key :: key in a ==> SamePeer(a[key], b[key])
  }

  predicate Unchanged(previous: Peers, desired: Peers, key: string)
    requires key in desired
  {
    key in previous && SamePeer(previous[key], desired[key])
  }

  // ---- Operations ----

  ghost predicate DistinctOps(ops: seq<Op>) {
    forall i, j :: 0 <= i < j < |ops| ==> ops[i].key != ops[j].key
  }

  ghost predicate Touches(ops: seq<Op>, key: string) {
    exists i :: 0 <= i < |ops| && ops[i].key == key
  }

  /** The peer map after the operations, each of them taken at its word; `PeerSync` says what a device makes
      of them. */
  function Applied(peers: Peers, ops: seq<Op>): Peers {
    if ops == [] then peers
    else
      var before := Applied(peers, ops[..|ops| - 1]);
      var op := ops[|ops| - 1];
      if op.peer.Some? then before[op.key := op.peer.value] else before - {op.key}
  }

  /** One operation for every key that differs and none for any other. */
  ghost predicate IsDiff(previous: Peers, desired: Peers, ops: seq<Op>) {
    && DistinctOps(ops)
    && (forall key :: Touches(ops, key) <==> Differs(previous, desired, key))
    && forall i :: 0 <= i < |ops| ==> ops[i].peer == Wanted(desired, ops[i].key)
  }

  ghost predicate Differs(previous: Peers, desired: Peers, key: string) {
    if key in desired then !Unchanged(previous, desired, key) else key in previous
  }

  function Wanted(desired: Peers, key: string): Option<Peer> {
    if key in desired then Some(desired[key]) else None
  }

  /** What is put in place comes before what is removed, either in the order of the keys. */
  ghost predicate InOrder(ops: seq<Op>) {
    forall i, j :: 0 <= i < j < |ops| ==>
      if ops[i].peer.Some? == ops[j].peer.Some? then AtMost(ops[i].key, ops[j].key) else ops[i].peer.Some?
  }

  lemma Push(ops: seq<Op>, op: Op)
    ensures DistinctOps(ops) && !Touches(ops, op.key) ==> DistinctOps(ops + [op])
    ensures forall key :: Touches(ops + [op], key) <==> Touches(ops, key) || key == op.key
  {
    var more := ops + [op];
    assert forall i :: 0 <= i < |ops| ==> more[i] == ops[i];
    forall key ensures Touches(more, key) <==> Touches(ops, key) || key == op.key {
      if Touches(ops, key) {
        var i :| 0 <= i < |ops| && ops[i].key == key;
        assert more[i].key == key;
      }
      if key == op.key {
        assert more[|ops|].key == key;
      }
    }
  }

  method DiffPeers(previous: seq<Peer>, desired: seq<Peer>) returns (ops: seq<Op>)
    ensures IsDiff(ByKey(previous), ByKey(desired), ops) && InOrder(ops)
  {
    var prev, want := ByKey(previous), ByKey(desired);
    ops := [];
    var keys := want.Keys;
    while keys != {}
      invariant keys <= want.Keys
      invariant DistinctOps(ops) && InOrder(ops) && Until(ops, true, keys)
      invariant forall key :: Touches(ops, key) <==> key in want.Keys - keys && !Unchanged(prev, want, key)
      invariant forall i :: 0 <= i < |ops| ==> ops[i].peer == Wanted(want, ops[i].key)
    {
      hide DistinctOps, Touches, Unchanged, ByKey, InOrder, Until;
      HasLeast(keys);
      var key :| IsLeast(key, keys);
      if !Unchanged(prev, want, key) {
        Push(ops, Op(key, Some(want[key])));
        PushInOrder(ops, Op(key, Some(want[key])), keys);
        ops := ops + [Op(key, Some(want[key]))];
      }
      UntilLess(ops, true, keys, keys - {key});
      keys := keys - {key};
    }
    keys := prev.Keys;
    assert Until(ops, false, keys);
    while keys != {}
      invariant keys <= prev.Keys
      invariant DistinctOps(ops) && InOrder(ops) && Until(ops, false, keys)
      invariant forall key :: Touches(ops, key) <==>
        if key in want then !Unchanged(prev, want, key) else key in prev.Keys - keys
      invariant forall i :: 0 <= i < |ops| ==> ops[i].peer == Wanted(want, ops[i].key)
    {
      hide DistinctOps, Touches, Unchanged, ByKey, InOrder, Until;
      HasLeast(keys);
      var key :| IsLeast(key, keys);
      if key !in want {
        Push(ops, Op(key, None));
        PushInOrder(ops, Op(key, None), keys);
        ops := ops + [Op(key, None)];
      }
      UntilLess(ops, false, keys, keys - {key});
      keys := keys - {key};
    }
  }

  /** Of the operations of the current half, none has a greater key than those to come; of the other half,
      there are some only while removing. */
  ghost predicate Until(ops: seq<Op>, putting: bool, keys: set<string>) {
    forall i :: 0 <= i < |ops| ==>
      if ops[i].peer.Some? == putting then forall key :: key in keys ==> AtMost(ops[i].key, key) else !putting
  }

  lemma PushInOrder(ops: seq<Op>, op: Op, keys: set<string>)
    requires InOrder(ops) && Until(ops, op.peer.Some?, keys) && IsLeast(op.key, keys)
    ensures InOrder(ops + [op]) && Until(ops + [op], op.peer.Some?, keys)
  {}

  lemma UntilLess(ops: seq<Op>, putting: bool, keys: set<string>, fewer: set<string>)
    requires Until(ops, putting, keys) && fewer <= keys
    ensures Until(ops, putting, fewer)
  {}

  // ---- What the operations do ----

  lemma {:induction false} AppliedAt(peers: Peers, ops: seq<Op>, key: string)
    requires DistinctOps(ops)
    ensures forall i :: 0 <= i < |ops| && ops[i].key == key ==>
      Wanted(Applied(peers, ops), key) == ops[i].peer
    ensures !Touches(ops, key) ==> Wanted(Applied(peers, ops), key) == Wanted(peers, key)
  {
    if ops == [] {
    } else {
      var front, last := ops[..|ops| - 1], ops[|ops| - 1];
      AppliedAt(peers, front, key);
      assert forall i :: 0 <= i < |front| ==> front[i] == ops[i];
      if Touches(front, key) {
        var i :| 0 <= i < |front| && front[i].key == key;
        assert ops[i].key == key;
      }
      assert ops[|front|] == last;
    }
  }

  ghost predicate Keyed(peers: Peers) {
    forall key :: key in peers ==> peers[key].publicKey == key
  }

  lemma {:induction false} ByKeyIsKeyed(peers: seq<Peer>)
    ensures Keyed(ByKey(peers))
  {
    if peers == [] {
    } else {
      ByKeyIsKeyed(peers[..|peers| - 1]);
    }
  }

  /** The operations turn the previous peer map into the desired one, up to the order of allowed IPs, and
      touch no peer that already is as wanted. */
  lemma DiffReachesDesired(previous: Peers, desired: Peers, ops: seq<Op>)
    requires IsDiff(previous, desired, ops)
    ensures SamePeers(Applied(previous, ops), desired)
    ensures forall key :: key in previous && !Touches(ops, key) ==>
      key in Applied(previous, ops) && Applied(previous, ops)[key] == previous[key]
  {
    hide Applied, SamePeer, DistinctOps, Touches;
    var after := Applied(previous, ops);
    forall key
      ensures key in after <==> key in desired
      ensures key in after ==> SamePeer(after[key], desired[key])
      ensures !Touches(ops, key) ==> Wanted(after, key) == Wanted(previous, key)
    {
      AppliedAt(previous, ops, key);
      assert Touches(ops, key) <==> Differs(previous, desired, key);
      if Touches(ops, key) {
        var i := TouchedAt(ops, key);
        if key in desired {
          SamePeerAsItself(desired[key]);
        }
      }
    }
  }

  lemma SameIps(a: Peer, b: Peer)
    requires SamePeer(a, b)
    ensures forall ip :: ip in a.allowedIps <==> ip in b.allowedIps
  {
    var ips, ips' := set ip | ip in a.allowedIps, set ip | ip in b.allowedIps;
    assert ips == ips';
    forall ip ensures ip in a.allowedIps <==> ip in b.allowedIps {
      assert ip in ips <==> ip in ips';
    }
  }

  lemma SamePeerAsItself(p: Peer)
    ensures SamePeer(p, p)
  {}

  lemma TouchedAt(ops: seq<Op>, key: string) returns (i: nat)
    requires Touches(ops, key)
    ensures i < |ops| && ops[i].key == key
  {
    i :| 0 <= i < |ops| && ops[i].key == key;
  }

  /** No operation can be left out: without any one of them the peers are not as wanted. */
  lemma EveryOpIsNecessary(previous: Peers, desired: Peers, ops: seq<Op>, i: nat)
    requires IsDiff(previous, desired, ops) && i < |ops|
    ensures !SamePeers(Applied(previous, ops[..i] + ops[i + 1..]), desired)
  {
    var others, key := ops[..i] + ops[i + 1..], ops[i].key;
    assert !Touches(others, key) && DistinctOps(others);
    hide Applied, SamePeer;
    AppliedAt(previous, others, key);
    assert Touches(ops, key);
    assert Differs(previous, desired, key);
  }

  /** Equal peers need no operation. */
  lemma NoDiffNoOps(previous: Peers, desired: Peers, ops: seq<Op>)
    requires IsDiff(previous, desired, ops)
    ensures ops == [] <==> SamePeers(previous, desired)
  {
    hide SamePeer;
    if ops != [] {
      assert Touches(ops, ops[0].key);
      assert Differs(previous, desired, ops[0].key);
    } else {
      forall key
        ensures key in previous <==> key in desired
        ensures key in desired ==> Unchanged(previous, desired, key)
      {
        assert !Touches(ops, key);
        assert !Differs(previous, desired, key);
      }
    }
  }

  /** A peer needs an operation exactly when it is not there yet, or its allowed IPs - in whatever order -, its
      endpoint or its advanced security are not what is desired, or it is there and not desired. */
  lemma DiffersIff(previous: Peers, desired: Peers, key: string)
    requires Keyed(previous) && Keyed(desired)
    ensures Differs(previous, desired, key) <==>
      !((key !in previous && key !in desired) || (key in previous && key in desired
        && (forall ip :: ip in previous[key].allowedIps <==> ip in desired[key].allowedIps)
        && previous[key].endpoint == desired[key].endpoint
        && previous[key].advancedSecurity == desired[key].advancedSecurity))
  {
    if key in previous && key in desired {
      SameIpsIff(previous[key], desired[key]);
    }
  }

  lemma SameIpsIff(a: Peer, b: Peer)
    ensures (set ip | ip in a.allowedIps) == (set ip | ip in b.allowedIps) <==>
      forall ip :: ip in a.allowedIps <==> ip in b.allowedIps
  {
    var ips, ips' := set ip | ip in a.allowedIps, set ip | ip in b.allowedIps;
    if ips == ips' {
      forall ip ensures ip in a.allowedIps <==> ip in b.allowedIps {
        assert ip in ips <==> ip in ips';
      }
    }
  }

  // ---- Order ----

  /** Of two peers of one key the later counts. */
  lemma {:induction false} ByKeyIsLast(peers: seq<Peer>, i: nat)
    requires i < |peers| && forall j :: i < j < |peers| ==> peers[j].publicKey != peers[i].publicKey
    ensures peers[i].publicKey in ByKey(peers) && ByKey(peers)[peers[i].publicKey] == peers[i]
  {
    if i == |peers| - 1 {
    } else {
      ByKeyIsLast(peers[..|peers| - 1], i);
    }
  }

  ghost predicate DistinctKeys(peers: seq<Peer>) {
    forall i, j :: 0 <= i < j < |peers| ==> peers[i].publicKey != peers[j].publicKey
  }

  lemma {:induction false} ByKeyHas(peers: seq<Peer>, key: string)
    ensures key in ByKey(peers) <==> exists i :: 0 <= i < |peers| && peers[i].publicKey == key
    ensures DistinctKeys(peers) ==> forall i :: 0 <= i < |peers| && peers[i].publicKey == key ==>
      ByKey(peers)[key] == peers[i]
  {
    if peers == [] {
    } else {
      var front, last := peers[..|peers| - 1], peers[|peers| - 1];
      ByKeyHas(front, key);
      assert forall i :: 0 <= i < |front| ==> front[i] == peers[i];
      if key in ByKey(front) {
        var i :| 0 <= i < |front| && front[i].publicKey == key;
        assert peers[i].publicKey == key;
      }
      assert peers[|front|] == last;
    }
  }

  /** Sorting peers of distinct keys makes no difference. */
  lemma SortingIsIrrelevant(peers: seq<Peer>, sorted: seq<Peer>)
    requires DistinctKeys(peers) && DistinctKeys(sorted) && multiset(peers) == multiset(sorted)
    ensures ByKey(peers) == ByKey(sorted)
  {
    hide ByKey;
    forall key ensures key in ByKey(peers) <==> key in ByKey(sorted)
    ensures key in ByKey(peers) ==> ByKey(peers)[key] == ByKey(sorted)[key]
    {
      ByKeyHas(peers, key);
      ByKeyHas(sorted, key);
      if key in ByKey(peers) {
        var i :| 0 <= i < |peers| && peers[i].publicKey == key;
        assert peers[i] in multiset(sorted);
        var j :| 0 <= j < |sorted| && sorted[j] == peers[i];
      }
      if key in ByKey(sorted) {
        var j :| 0 <= j < |sorted| && sorted[j].publicKey == key;
        assert sorted[j] in multiset(peers);
        var i :| 0 <= i < |peers| && peers[i] == sorted[j];
      }
    }
  }

  // ---- Resolving endpoints ----

  /** An entry with its endpoint looked up; `None` when the lookup of one it has failed. */
  function ResolvedPeer(entry: PeerEntry, lookup: Option<string>): Option<Peer> {
    if entry.endpoint.Some? && lookup.None? then None
    else
      Some(Peer(
        entry.publicKey,
        if entry.allowedIps.Some? then entry.allowedIps.value else FULL_TUNNEL,
        if entry.endpoint.Some? then lookup else None,
        entry.advancedSecurity))
  }

  /** What an entry resolves to, field by field: nothing exactly when the lookup of an endpoint it has fails;
      without allowed IPs of its own the full tunnel of both families. */
  lemma ResolvedPeerIs(entry: PeerEntry, lookup: Option<string>)
    ensures ResolvedPeer(entry, lookup).None? <==> entry.endpoint.Some? && lookup.None?
    ensures ResolvedPeer(entry, lookup).Some? ==>
      var peer := ResolvedPeer(entry, lookup).value;
      && peer.publicKey == entry.publicKey && peer.advancedSecurity == entry.advancedSecurity
      && (entry.endpoint.None? ==> peer.endpoint.None?)
      && (entry.endpoint.Some? ==> peer.endpoint == lookup)
      && (entry.allowedIps.Some? ==> peer.allowedIps == entry.allowedIps.value)
      && (entry.allowedIps.None? ==> peer.allowedIps == ["0.0.0.0/0", "::/0"])
  {}

  /** The first peer of the key. */
  ghost predicate IsFirstOf(peers: seq<Peer>, key: string, i: nat) {
    i < |peers| && peers[i].publicKey == key && forall j :: 0 <= j < i ==> peers[j].publicKey != key
  }

  lemma {:induction false} FirstIs(peers: seq<Peer>, key: string, i: nat)
    requires IsFirstOf(peers, key, i)
    ensures FirstOf(peers, key) == Some(peers[i])
  {
    if i == 0 {
    } else {
      FirstIs(peers[1..], key, i - 1);
    }
  }

  function FirstOf(peers: seq<Peer>, key: string): (r: Option<Peer>)
    ensures r.Some? ==> r.value in peers && r.value.publicKey == key
    ensures r.None? ==> forall p :: p in peers ==> p.publicKey != key
  {
    if peers == [] then None
    else if peers[0].publicKey == key then Some(peers[0])
    else FirstOf(peers[1..], key)
  }

  /** The peer an entry stands for this pass: resolved, else as the kernel has it, else none. */
  function ResolvedOrKept(entry: PeerEntry, lookup: Option<string>, previous: seq<Peer>): Option<Peer> {
    var resolved := ResolvedPeer(entry, lookup);
    if resolved.Some? then resolved else FirstOf(previous, entry.publicKey)
  }

  /** `lookups[i]` is what resolving the endpoint of entry `i` returns. */
  function Desired(entries: seq<PeerEntry>, lookups: seq<Option<string>>, previous: seq<Peer>): seq<Peer>
    requires |entries| == |lookups|
  {
    if entries == [] then []
    else
      var n := |entries| - 1;
      var front := Desired(entries[..n], lookups[..n], previous);
      var peer := ResolvedOrKept(entries[n], lookups[n], previous);
      if peer.Some? then front + [peer.value] else front
  }

  method DesiredPeers(entries: seq<PeerEntry>, lookups: seq<Option<string>>, previous: seq<Peer>)
      returns (desired: seq<Peer>)
    requires |entries| == |lookups|
    ensures desired == Desired(entries, lookups, previous)
  {
    desired := [];
    for i := 0 to |entries|
      invariant desired == Desired(entries[..i], lookups[..i], previous)
    {
      hide ResolvedPeer, FirstOf;
      assert entries[..i + 1][..i] == entries[..i] && lookups[..i + 1][..i] == lookups[..i];
      var resolved := ResolvedPeer(entries[i], lookups[i]);
      if resolved.Some? {
        desired := desired + [resolved.value];
      } else {
        var existing := FirstOf(previous, entries[i].publicKey);
        if existing.Some? {
          desired := desired + [existing.value];
        }
      }
    }
    assert entries[..|entries|] == entries && lookups[..|lookups|] == lookups;
  }

  ghost predicate DistinctEntries(entries: seq<PeerEntry>) {
    forall i, j :: 0 <= i < j < |entries| ==> entries[i].publicKey != entries[j].publicKey
  }

  lemma {:induction false} DesiredAt(entries: seq<PeerEntry>, lookups: seq<Option<string>>, previous: seq<Peer>,
                                     key: string)
    requires |entries| == |lookups| && DistinctEntries(entries)
    ensures (forall i :: 0 <= i < |entries| ==> entries[i].publicKey != key) ==>
      key !in ByKey(Desired(entries, lookups, previous))
    ensures forall i :: 0 <= i < |entries| && entries[i].publicKey == key ==>
      Wanted(ByKey(Desired(entries, lookups, previous)), key) == ResolvedOrKept(entries[i], lookups[i], previous)
  {
    hide ResolvedOrKept;
    if entries == [] {
    } else {
      var n := |entries| - 1;
      DesiredAt(entries[..n], lookups[..n], previous, key);
      KeptIsKeyed(entries[n], lookups[n], previous);
    }
  }

  lemma KeptIsKeyed(entry: PeerEntry, lookup: Option<string>, previous: seq<Peer>)
    ensures var peer := ResolvedOrKept(entry, lookup, previous);
      peer.Some? ==> peer.value.publicKey == entry.publicKey
  {}

  /** A peer whose endpoint does not resolve is left alone exactly when the kernel reports it by one entry,
      or by several of which the first and the last are the same; a new one waits for the next pass. */
  lemma UnresolvedIsLeftAloneIff(
    entries: seq<PeerEntry>, lookups: seq<Option<string>>, previous: seq<Peer>, ops: seq<Op>, i: nat)
    requires |entries| == |lookups| && DistinctEntries(entries) && i < |entries|
    requires ResolvedPeer(entries[i], lookups[i]).None?
    requires IsDiff(ByKey(previous), ByKey(Desired(entries, lookups, previous)), ops)
    ensures !Touches(ops, entries[i].publicKey) <==>
      var first, last := FirstOf(previous, entries[i].publicKey), Wanted(ByKey(previous), entries[i].publicKey);
      first.Some? ==> last.Some? && SamePeer(last.value, first.value)
  {
    hide DistinctEntries, Desired, ByKey, DistinctOps, Touches, SamePeer, FirstOf;
    var key := entries[i].publicKey;
    DesiredAt(entries, lookups, previous, key);
    ByKeyHas(previous, key);
    var first := FirstOf(previous, key);
    assert forall j :: 0 <= j < |previous| ==> previous[j] in previous;
    assert Touches(ops, key) <==> Differs(ByKey(previous), ByKey(Desired(entries, lookups, previous)), key);
  }

  /** A peer that resolves ends up in the peer map as its entry says. */
  lemma ResolvedIsAsConfigured(
    entries: seq<PeerEntry>, lookups: seq<Option<string>>, previous: seq<Peer>, ops: seq<Op>, i: nat)
    requires |entries| == |lookups| && DistinctEntries(entries) && i < |entries|
    requires ResolvedPeer(entries[i], lookups[i]).Some?
    requires IsDiff(ByKey(previous), ByKey(Desired(entries, lookups, previous)), ops)
    ensures EndsUpAs(Applied(ByKey(previous), ops), ResolvedPeer(entries[i], lookups[i]).value)
  {
    hide DistinctEntries, Desired, ByKey, DistinctOps, Touches, SamePeer, FirstOf, Applied;
    DesiredAt(entries, lookups, previous, entries[i].publicKey);
    DiffReachesDesired(ByKey(previous), ByKey(Desired(entries, lookups, previous)), ops);
  }

  ghost predicate EndsUpAs(peers: Peers, peer: Peer) {
    peer.publicKey in peers && SamePeer(peers[peer.publicKey], peer)
  }

  /** With every key reported once, the first report of a key is its last. */
  lemma ReportedOnce(previous: seq<Peer>, key: string)
    requires DistinctKeys(previous)
    ensures FirstOf(previous, key) == Wanted(ByKey(previous), key)
  {
    hide ByKey, FirstOf;
    ByKeyHas(previous, key);
    assert forall j :: 0 <= j < |previous| ==> previous[j] in previous;
    var first := FirstOf(previous, key);
    if first.Some? {
      var j :| 0 <= j < |previous| && previous[j] == first.value;
    }
  }

  /** The operations of one update of an interface's peers: with every key once in what the kernel reports,
      no peer that fails to resolve is touched; in the peer map every peer that resolves ends up as its entry
      says, and a peer no entry names is gone. */
  method OpsFor(entries: seq<PeerEntry>, lookups: seq<Option<string>>, previous: seq<Peer>) returns (ops: seq<Op>)
    requires |entries| == |lookups| && DistinctEntries(entries)
    ensures IsDiff(ByKey(previous), ByKey(Desired(entries, lookups, previous)), ops)
    ensures DistinctKeys(previous) ==> forall i :: 0 <= i < |entries| && ResolvedPeer(entries[i], lookups[i]).None? ==>
      !Touches(ops, entries[i].publicKey)
    ensures forall i :: 0 <= i < |entries| && ResolvedPeer(entries[i], lookups[i]).Some? ==>
      EndsUpAs(Applied(ByKey(previous), ops), ResolvedPeer(entries[i], lookups[i]).value)
    ensures forall key :: (forall i :: 0 <= i < |entries| ==> entries[i].publicKey != key) ==>
      key !in Applied(ByKey(previous), ops)
  {
    hide *;
    var desired := DesiredPeers(entries, lookups, previous);
    ops := DiffPeers(previous, desired);
    forall i | 0 <= i < |entries| && ResolvedPeer(entries[i], lookups[i]).None? && DistinctKeys(previous)
      ensures !Touches(ops, entries[i].publicKey)
    {
      UnresolvedIsLeftAloneIff(entries, lookups, previous, ops, i);
      ReportedOnce(previous, entries[i].publicKey);
      if FirstOf(previous, entries[i].publicKey).Some? {
        SamePeerAsItself(FirstOf(previous, entries[i].publicKey).value);
      }
    }
    forall i | 0 <= i < |entries| && ResolvedPeer(entries[i], lookups[i]).Some?
      ensures EndsUpAs(Applied(ByKey(previous), ops), ResolvedPeer(entries[i], lookups[i]).value)
    {
      ResolvedIsAsConfigured(entries, lookups, previous, ops, i);
    }
    forall key | forall i :: 0 <= i < |entries| ==> entries[i].publicKey != key
      ensures key !in Applied(ByKey(previous), ops)
    {
      DesiredAt(entries, lookups, previous, key);
      SameKeys(ByKey(previous), ByKey(desired), ops);
    }
  }

  lemma SameKeys(previous: Peers, desired: Peers, ops: seq<Op>)
    requires IsDiff(previous, desired, ops)
    ensures Applied(previous, ops).Keys == desired.Keys
  {
    hide IsDiff, Applied, SamePeer;
    DiffReachesDesired(previous, desired, ops);
  }
}
