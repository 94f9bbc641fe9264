/** Which interfaces and peers a freshly started daemon tracks. */
module AwgMain {
  import opened RouteRuns
  import opened Routes
  import opened Wrappers

  datatype PeerEntry = PeerEntry(publicKey: Key, allowedIps: Option<seq<Text>>)

  datatype InterfaceEntry = InterfaceEntry(name: string, handshakeStaleSecs: Option<nat>, peers: seq<PeerEntry>)

  const DEFAULT_HANDSHAKE_STALE_SECS := 180

  /** The last entry of `peers` with this key that sets `allowed_ips`, if any. */
  function AllowedOf(peers: seq<PeerEntry>, key: Key): Option<seq<Text>> {
    if peers == [] then None
    else
      var last := peers[|peers| - 1];
      if last.publicKey == key && last.allowedIps.Some? then last.allowedIps
      else AllowedOf(peers[..|peers| - 1], key)
  }

  ghost predicate Tracks(iface: TrackedInterface, entry: InterfaceEntry, links: map<string, Ifindex>) {
    && iface.name == entry.name
    && entry.name in links && iface.index == links[entry.name]
    && iface.staleSecs ==
      (if entry.handshakeStaleSecs.Some? then entry.handshakeStaleSecs.value else DEFAULT_HANDSHAKE_STALE_SECS)
    && forall key :: AllowedOf(entry.peers, key) == if key in iface.peers then Some(iface.peers[key]) else None
  }

  /** Entry `i` is the last one of its key that sets `allowed_ips`. */
  ghost predicate IsLastAllowed(entries: seq<PeerEntry>, i: nat) {
    && i < |entries| && entries[i].allowedIps.Some?
    && forall j :: i < j < |entries| && entries[j].publicKey == entries[i].publicKey ==> entries[j].allowedIps.None?
  }

  /** A peer has allowed IPs exactly when an entry of it sets some, and then those of the last such entry. */
  lemma {:induction false} AllowedSome(entries: seq<PeerEntry>, key: Key)
    ensures AllowedOf(entries, key).Some? <==>
      exists entry :: entry in entries && entry.publicKey == key && entry.allowedIps.Some?
  {
    if entries == [] {
    } else {
      var front, last := entries[..|entries| - 1], entries[|entries| - 1];
      AllowedSome(front, key);
      assert entries == front + [last];
    }
  }

  lemma {:induction false} AllowedIsLast(entries: seq<PeerEntry>, i: nat)
    requires IsLastAllowed(entries, i)
    ensures AllowedOf(entries, entries[i].publicKey) == entries[i].allowedIps
  {
    if i == |entries| - 1 {
    } else {
      AllowedIsLast(entries[..|entries| - 1], i);
    }
  }

  method TrackedPeers(entries: seq<PeerEntry>) returns (peers: map<Key, seq<Text>>)
    ensures forall key :: key in peers <==>
      exists entry :: entry in entries && entry.publicKey == key && entry.allowedIps.Some?
    ensures forall i: nat :: IsLastAllowed(entries, i) ==>
      entries[i].publicKey in peers && peers[entries[i].publicKey] == entries[i].allowedIps.value
    ensures forall key :: AllowedOf(entries, key) == if key in peers then Some(peers[key]) else None
  {
    peers := map[];
    for j := 0 to |entries|
      invariant forall key :: AllowedOf(entries[..j], key) == if key in peers then Some(peers[key]) else None
    {
      var peer := entries[j];
      assert entries[..j + 1][..j] == entries[..j] && entries[..j + 1][j] == peer;
      if peer.allowedIps.Some? {
        peers := peers[peer.publicKey := peer.allowedIps.value];
      }
    }
    assert entries[..|entries|] == entries;
    forall key
      ensures AllowedOf(entries, key).Some? <==>
        exists entry :: entry in entries && entry.publicKey == key && entry.allowedIps.Some?
    {
      AllowedSome(entries, key);
    }
    forall i: nat | IsLastAllowed(entries, i)
      ensures AllowedOf(entries, entries[i].publicKey) == entries[i].allowedIps
    {
      AllowedIsLast(entries, i);
    }
    hide AllowedOf;
  }

  /** `links` is what looking the interfaces up by name gives; one that is missing fails the start. */
  method BuildTrackedInterfaces(config: seq<InterfaceEntry>, links: map<string, Ifindex>)
      returns (r: Option<seq<TrackedInterface>>)
    ensures r.Some? <==> forall entry :: entry in config ==> entry.name in links
    ensures r.Some? ==> |r.value| == |config| && forall i :: 0 <= i < |config| ==> Tracks(r.value[i], config[i], links)
    ensures r.Some? ==> forall i :: 0 <= i < |config| && config[i].handshakeStaleSecs.None? ==>
      r.value[i].staleSecs == 180
  {
    hide AllowedOf;
    var out := [];
    for i := 0 to |config|
      invariant |out| == i
      invariant forall k :: 0 <= k < i ==> Tracks(out[k], config[k], links)
      invariant forall k :: 0 <= k < i ==> config[k].name in links
    {
      var entry := config[i];
      var peers := TrackedPeers(entry.peers);
      if entry.name !in links {
        assert entry in config;
        return None;
      }
      var staleSecs :=
        if entry.handshakeStaleSecs.Some? then entry.handshakeStaleSecs.value else DEFAULT_HANDSHAKE_STALE_SECS;
      out := out + [TrackedInterface(entry.name, links[entry.name], staleSecs, peers)];
    }
    return Some(out);
  }

  /** The validated config names every interface once, and the kernel numbers each differently. */
  lemma TrackedIndicesAreDistinct(config: seq<InterfaceEntry>, links: map<string, Ifindex>,
                                  tracked: seq<TrackedInterface>)
    requires |tracked| == |config| && forall i :: 0 <= i < |config| ==> Tracks(tracked[i], config[i], links)
    requires forall i, j :: 0 <= i < j < |config| ==> config[i].name != config[j].name
    requires forall a, b :: a in links && b in links && links[a] == links[b] ==> a == b
    ensures DistinctIndices(tracked)
  {
    hide AllowedOf;
    forall i, j | 0 <= i < j < |tracked| ensures tracked[i].index != tracked[j].index {
      assert Tracks(tracked[i], config[i], links) && Tracks(tracked[j], config[j], links);
    }
  }

  /** An interface is tracked even when no peer of it sets `allowed_ips`: its old routes must go too. */
  lemma EmptyInterfaceIsTracked(iface: TrackedInterface, entry: InterfaceEntry, links: map<string, Ifindex>)
    requires Tracks(iface, entry, links)
    requires forall peer :: peer in entry.peers ==> peer.allowedIps.None?
    ensures iface.peers == map[]
  {
    forall key ensures AllowedOf(entry.peers, key) == None {
      NothingAllowed(entry.peers, key);
    }
  }

  lemma {:induction false} NothingAllowed(peers: seq<PeerEntry>, key: Key)
    requires forall peer :: peer in peers ==> peer.allowedIps.None?
    ensures AllowedOf(peers, key) == None
  {
    if peers == [] {
    } else {
      assert peers[|peers| - 1] in peers;
      NothingAllowed(peers[..|peers| - 1], key);
    }
  }
}
