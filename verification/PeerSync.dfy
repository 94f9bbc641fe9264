/** The peers a WireGuard device has, and what sending it the operations of a diff makes of them. */
module PeerSync {
  import opened Lists
  import opened PeerDiff
  import opened Wrappers

  /** The bytes of a key, and an allowed IP as the device keeps it. */
  type PublicKey = nat

  datatype Net = Net(bits: nat, len: nat)

  datatype LivePeer = LivePeer(allowed: set<Net>, endpoint: Option<string>)

  type Live = map<PublicKey, LivePeer>

  /** What texts stand for. Several can stand for one key, of which `show` is the one a key is read back as;
      an endpoint that is an address is spelled the way addresses are read back. */
  datatype Texts = Texts(
    key: string -> Option<PublicKey>,
    show: PublicKey -> string,
    net: string -> Option<Net>,
    isAddress: string -> bool)

  datatype Update =
    | Replace(key: PublicKey, allowed: set<Net>, endpoint: Option<string>)
    | Remove(key: PublicKey)

  predicate AllParse(texts: Texts, ips: seq<string>) {
    forall ip | ip in ips :: texts.net(ip).Some?
  }

  function Nets(texts: Texts, ips: seq<string>): set<Net> {
    set ip | ip in ips && texts.net(ip).Some? :: texts.net(ip).value
  }

  /** The endpoint that is sent along: none for a peer without one, or with one that is no address. */
  function SentEndpoint(texts: Texts, endpoint: Option<string>): Option<string> {
    if endpoint.Some? && texts.isAddress(endpoint.value) then endpoint else None
  }

  /** The update an operation becomes, if its key decodes and its allowed IPs parse. */
  function UpdateOf(texts: Texts, op: Op): Option<Update> {
    if texts.key(op.key).None? then None
    else
      match op.peer
      case None => Some(Remove(texts.key(op.key).value))
      case Some(peer) =>
        if AllParse(texts, peer.allowedIps)
        then Some(Replace(texts.key(op.key).value, Nets(texts, peer.allowedIps), SentEndpoint(texts, peer.endpoint)))
        else None
  }

  function UpdatesOf(texts: Texts, ops: seq<Op>): seq<Update> {
    if ops == [] then []
    else
      var front := UpdatesOf(texts, ops[..|ops| - 1]);
      var u := UpdateOf(texts, ops[|ops| - 1]);
      if u.Some? then front + [u.value] else front
  }

  // ---- The device ----

  function EndpointOf(live: Live, key: PublicKey): Option<string> {
    if key in live then live[key].endpoint else None
  }

  /** A peer's allowed IPs are replaced as a whole, and an allowed IP belongs to one peer: who gets it takes
      it from the others. A peer keeps the endpoint it has unless it is sent one. */
  function Deliver(live: Live, u: Update): Live {
    match u
    case Remove(key) => live - {key}
    case Replace(key, allowed, endpoint) =>
      map k | k in live.Keys + {key} ::
        if k != key then live[k].(allowed := live[k].allowed - allowed)
        else LivePeer(allowed, if endpoint.Some? then endpoint else EndpointOf(live, key))
  }

  function Delivered(live: Live, updates: seq<Update>): Live {
    if updates == [] then live
    else Deliver(Delivered(live, updates[..|updates| - 1]), updates[|updates| - 1])
  }

  ghost predicate OneOwner(live: Live) {
    forall a, b :: a in live && b in live && a != b ==> live[a].allowed !! live[b].allowed
  }

  ghost predicate PutsBeforeRemovals(updates: seq<Update>) {
    forall i, j :: 0 <= i < j < |updates| && updates[i].Remove? ==> updates[j].Remove?
  }

  ghost predicate Puts(updates: seq<Update>, key: PublicKey) {
    exists u :: u in updates && u.Replace? && u.key == key
  }

  ghost predicate Removes(updates: seq<Update>, key: PublicKey) {
    Remove(key) in updates
  }

  ghost predicate Sends(updates: seq<Update>, key: PublicKey, endpoint: string) {
    exists u :: u in updates && u.Replace? && u.key == key && u.endpoint == Some(endpoint)
  }

  /** Every put of the key asks for the same, and no other asks for any of it. */
  ghost predicate Agreed(updates: seq<Update>, key: PublicKey, nets: set<Net>, endpoint: Option<string>) {
    forall u :: u in updates && u.Replace? ==>
      if u.key == key then u.allowed == nets && (u.endpoint.None? || u.endpoint == endpoint) else u.allowed !! nets
  }

  lemma {:induction false} DeliveredHas(live: Live, updates: seq<Update>, key: PublicKey)
    requires PutsBeforeRemovals(updates)
    ensures key in Delivered(live, updates) <==> (key in live || Puts(updates, key)) && !Removes(updates, key)
  {
    if updates == [] {
    } else {
      var n := |updates| - 1;
      var front, last := updates[..n], updates[n];
      assert updates == front + [last];
      DeliveredHas(live, front, key);
      assert Removes(front, key) ==> last.Remove?;
      assert Puts(updates, key) <==> Puts(front, key) || (last.Replace? && last.key == key);
    }
  }

  lemma {:induction false} DeliveredAllowed(live: Live, updates: seq<Update>, key: PublicKey, nets: set<Net>,
                                            endpoint: Option<string>)
    requires Agreed(updates, key, nets, endpoint) && !Removes(updates, key)
    requires Puts(updates, key) || (key in live && live[key].allowed == nets)
    ensures var after := Delivered(live, updates); key in after && after[key].allowed == nets
  {
    if updates == [] {
    } else {
      var front, last := updates[..|updates| - 1], updates[|updates| - 1];
      assert updates == front + [last] && last in updates;
      if !last.Replace? || last.key != key {
        assert Puts(updates, key) ==> Puts(front, key);
        DeliveredAllowed(live, front, key, nets, endpoint);
      }
    }
  }

  lemma {:induction false} DeliveredEndpoint(live: Live, updates: seq<Update>, key: PublicKey, nets: set<Net>,
                                             endpoint: Option<string>)
    requires Agreed(updates, key, nets, endpoint) && !Removes(updates, key)
    ensures EndpointOf(Delivered(live, updates), key)
      == if endpoint.Some? && Sends(updates, key, endpoint.value) then endpoint else EndpointOf(live, key)
  {
    if updates == [] {
    } else {
      var front, last := updates[..|updates| - 1], updates[|updates| - 1];
      assert updates == front + [last] && last in updates;
      DeliveredEndpoint(live, front, key, nets, endpoint);
      if endpoint.Some? {
        assert Sends(updates, key, endpoint.value) <==>
          Sends(front, key, endpoint.value) || (last.Replace? && last.key == key && last.endpoint == endpoint);
      }
    }
  }

  lemma {:induction false} DeliveredOneOwner(live: Live, updates: seq<Update>)
    requires OneOwner(live)
    ensures OneOwner(Delivered(live, updates))
  {
    if updates == [] {
    } else {
      DeliveredOneOwner(live, updates[..|updates| - 1]);
    }
  }

  /** A peer no update is about keeps its endpoint, gains nothing, and loses only what others are given. */
  lemma {:induction false} UntouchedPeer(live: Live, updates: seq<Update>, key: PublicKey)
    requires key in live && forall u :: u in updates ==> u.key != key
    ensures var after := Delivered(live, updates);
      && key in after && after[key].endpoint == live[key].endpoint && after[key].allowed <= live[key].allowed
      && forall net :: net in live[key].allowed && net !in after[key].allowed ==>
        exists u :: u in updates && u.Replace? && net in u.allowed
  {
    if updates == [] {
    } else {
      var n := |updates| - 1;
      var front, last := updates[..n], updates[n];
      assert updates == front + [last];
      UntouchedPeer(live, front, key);
      assert last in updates;
    }
  }

  // ---- What the diff makes of the device ----

  /** What the device reports: every peer under its key as read back, with all it has. */
  ghost predicate Reports(texts: Texts, previous: Peers, live: Live) {
    && (forall key :: key in live ==> texts.key(texts.show(key)) == Some(key) && texts.show(key) in previous)
    && (forall text :: text in previous ==>
      && texts.key(text).Some? && texts.key(text).value in live && text == texts.show(texts.key(text).value)
      && HasPeer(texts, live, previous[text], texts.key(text).value))
  }

  /** Under `key` the device has exactly the peer. */
  ghost predicate HasPeer(texts: Texts, live: Live, peer: Peer, key: PublicKey) {
    && AllParse(texts, peer.allowedIps) && key in live
    && live[key].allowed == Nets(texts, peer.allowedIps) && live[key].endpoint == peer.endpoint
  }

  /** The device has the desired peers, and no others. */
  ghost predicate Reached(texts: Texts, live: Live, desired: Peers) {
    && (forall text :: text in desired ==>
      texts.key(text).Some? && HasPeer(texts, live, desired[text], texts.key(text).value))
    && (forall key :: key in live ==> exists text :: text in desired && texts.key(text) == Some(key))
  }

  /** Two texts of one key want the same, and no two keys want one allowed IP. */
  ghost predicate Agree(texts: Texts, desired: Peers) {
    forall a, b :: a in desired && b in desired ==>
      if texts.key(a) == texts.key(b)
      then Nets(texts, desired[a].allowedIps) == Nets(texts, desired[b].allowedIps)
        && desired[a].endpoint == desired[b].endpoint
      else Nets(texts, desired[a].allowedIps) !! Nets(texts, desired[b].allowedIps)
  }

  ghost predicate Wellformed(texts: Texts, desired: Peers) {
    forall text :: text in desired ==> texts.key(text).Some? && AllParse(texts, desired[text].allowedIps)
  }

  /** Its endpoint can be set, or is there already; one the device has learned cannot be taken away. */
  ghost predicate EndpointReachable(texts: Texts, live: Live, text: string, peer: Peer) {
    || (peer.endpoint.Some? && texts.isAddress(peer.endpoint.value))
    || (texts.key(text).Some? && EndpointOf(live, texts.key(text).value) == peer.endpoint)
  }

  /** A key that is configured already is spelled as the device reports it: otherwise the text it is
      reported under gets removed. */
  ghost predicate SpelledAsReported(texts: Texts, live: Live, desired: Peers) {
    forall text :: text in desired && texts.key(text).Some? && texts.key(text).value in live ==>
      texts.show(texts.key(text).value) in desired
  }

  ghost predicate Reachable(texts: Texts, live: Live, previous: Peers, desired: Peers) {
    && Wellformed(texts, desired) && Agree(texts, desired) && SpelledAsReported(texts, live, desired)
    && forall text :: text in desired && Differs(previous, desired, text) ==>
      EndpointReachable(texts, live, text, desired[text])
  }

  lemma {:induction false} UpdatesHave(texts: Texts, ops: seq<Op>)
    ensures forall u :: u in UpdatesOf(texts, ops) <==> exists op :: op in ops && UpdateOf(texts, op) == Some(u)
  {
    hide UpdateOf;
    if ops == [] {
    } else {
      var n := |ops| - 1;
      UpdatesHave(texts, ops[..n]);
      assert ops == ops[..n] + [ops[n]];
    }
  }

  lemma {:induction false} UpdatesKeepOrder(texts: Texts, ops: seq<Op>)
    requires InOrder(ops)
    ensures PutsBeforeRemovals(UpdatesOf(texts, ops))
  {
    if ops == [] {
    } else {
      var front, last := ops[..|ops| - 1], ops[|ops| - 1];
      UpdatesKeepOrder(texts, front);
      var u := UpdateOf(texts, last);
      if u.Some? {
        assert u.value.Replace? ==> forall v :: v in UpdatesOf(texts, front) ==> v.Replace? by {
          OnlyPuts(texts, ops);
        }
        LastInOrder(UpdatesOf(texts, front), u.value);
      }
    }
  }

  lemma OnlyPuts(texts: Texts, ops: seq<Op>)
    requires InOrder(ops) && ops != []
    ensures ops[|ops| - 1].peer.Some? ==> forall v :: v in UpdatesOf(texts, ops[..|ops| - 1]) ==> v.Replace?
  {
    hide AtMost, AllParse, Nets;
    UpdatesHave(texts, ops[..|ops| - 1]);
  }

  lemma LastInOrder(front: seq<Update>, u: Update)
    requires PutsBeforeRemovals(front) && (u.Replace? ==> forall v :: v in front ==> v.Replace?)
    ensures PutsBeforeRemovals(front + [u])
  {
    assert forall i :: 0 <= i < |front| ==> front[i] in front && (front + [u])[i] == front[i];
  }

  /** What the updates of a diff are about. */
  lemma DiffUpdates(texts: Texts, previous: Peers, desired: Peers, ops: seq<Op>, u: Update)
    requires IsDiff(previous, desired, ops) && Wellformed(texts, desired)
    ensures u in UpdatesOf(texts, ops) <==> exists text :: IsUpdateFor(texts, previous, desired, text, u)
  {
    hide UpdateOf;
    UpdatesHave(texts, ops);
    if u in UpdatesOf(texts, ops) {
      var op :| op in ops && UpdateOf(texts, op) == Some(u);
      var i :| 0 <= i < |ops| && ops[i] == op;
      assert Touches(ops, op.key);
      assert IsUpdateFor(texts, previous, desired, op.key, u);
    }
    if text :| IsUpdateFor(texts, previous, desired, text, u) {
      assert Touches(ops, text);
      var i := TouchedAt(ops, text);
      assert ops[i] in ops;
    }
  }

  /** The update is the one a differing key gives. */
  ghost predicate IsUpdateFor(texts: Texts, previous: Peers, desired: Peers, text: string, u: Update) {
    Differs(previous, desired, text) && UpdateOf(texts, Op(text, Wanted(desired, text))) == Some(u)
  }

  lemma PutsOf(texts: Texts, previous: Peers, desired: Peers, ops: seq<Op>, key: PublicKey)
    requires IsDiff(previous, desired, ops) && Wellformed(texts, desired)
    ensures Puts(UpdatesOf(texts, ops), key) <==>
      exists text :: text in desired && Differs(previous, desired, text) && texts.key(text) == Some(key)
  {
    hide IsDiff, UpdatesOf, Differs;
    if u :| u in UpdatesOf(texts, ops) && u.Replace? && u.key == key {
      DiffUpdates(texts, previous, desired, ops, u);
      var text :| IsUpdateFor(texts, previous, desired, text, u);
      assert text in desired;
    }
    if text :| text in desired && Differs(previous, desired, text) && texts.key(text) == Some(key) {
      var u := Replace(key, Nets(texts, desired[text].allowedIps), SentEndpoint(texts, desired[text].endpoint));
      assert IsUpdateFor(texts, previous, desired, text, u);
      DiffUpdates(texts, previous, desired, ops, u);
    }
  }

  lemma RemovesOf(texts: Texts, live: Live, previous: Peers, desired: Peers, ops: seq<Op>, key: PublicKey)
    requires IsDiff(previous, desired, ops) && Wellformed(texts, desired) && Reports(texts, previous, live)
    ensures Removes(UpdatesOf(texts, ops), key) <==> key in live && texts.show(key) !in desired
  {
    hide IsDiff, UpdatesOf;
    DiffUpdates(texts, previous, desired, ops, Remove(key));
    if Removes(UpdatesOf(texts, ops), key) {
      var text :| IsUpdateFor(texts, previous, desired, text, Remove(key));
      assert text !in desired && text in previous;
    }
    if key in live && texts.show(key) !in desired {
      assert IsUpdateFor(texts, previous, desired, texts.show(key), Remove(key));
    }
  }

  // ---- When the desired peers are reached ----

  /** What the updates ask of the key is what any desired text of it wants. */
  lemma DiffAgrees(texts: Texts, previous: Peers, desired: Peers, ops: seq<Op>, text: string)
    requires IsDiff(previous, desired, ops) && Wellformed(texts, desired) && Agree(texts, desired) && text in desired
    ensures var wants := Nets(texts, desired[text].allowedIps);
      Agreed(UpdatesOf(texts, ops), texts.key(text).value, wants, desired[text].endpoint)
  {
    hide IsDiff, UpdatesOf, Nets, Differs;
    forall u | u in UpdatesOf(texts, ops) && u.Replace?
      ensures if u.key == texts.key(text).value
        then u.allowed == Nets(texts, desired[text].allowedIps)
          && (u.endpoint.None? || u.endpoint == desired[text].endpoint)
        else u.allowed !! Nets(texts, desired[text].allowedIps)
    {
      DiffUpdates(texts, previous, desired, ops, u);
      var other :| IsUpdateFor(texts, previous, desired, other, u);
      assert other in desired;
    }
  }

  lemma SendsOf(texts: Texts, previous: Peers, desired: Peers, ops: seq<Op>, text: string, endpoint: string)
    requires IsDiff(previous, desired, ops) && Wellformed(texts, desired) && Agree(texts, desired) && text in desired
    requires desired[text].endpoint == Some(endpoint)
    ensures Sends(UpdatesOf(texts, ops), texts.key(text).value, endpoint) ==> texts.isAddress(endpoint)
    ensures texts.isAddress(endpoint) && Differs(previous, desired, text) ==>
      Sends(UpdatesOf(texts, ops), texts.key(text).value, endpoint)
  {
    hide IsDiff, UpdatesOf, Nets, Differs;
    var key := texts.key(text).value;
    if u :| u in UpdatesOf(texts, ops) && u.Replace? && u.key == key && u.endpoint == Some(endpoint) {
      DiffUpdates(texts, previous, desired, ops, u);
      var other :| IsUpdateFor(texts, previous, desired, other, u);
    }
    if texts.isAddress(endpoint) && Differs(previous, desired, text) {
      var u := Replace(key, Nets(texts, desired[text].allowedIps), Some(endpoint));
      assert IsUpdateFor(texts, previous, desired, text, u);
      DiffUpdates(texts, previous, desired, ops, u);
    }
  }

  /** Where all is well, each desired peer is there, but perhaps with an endpoint it has learned. */
  lemma DesiredPeerIsThere(texts: Texts, live: Live, previous: Peers, desired: Peers, ops: seq<Op>, text: string)
    requires IsDiff(previous, desired, ops) && InOrder(ops) && Reports(texts, previous, live)
    requires Wellformed(texts, desired) && Agree(texts, desired) && SpelledAsReported(texts, live, desired)
    requires text in desired
    ensures var key := texts.key(text).value; var after := Delivered(live, UpdatesOf(texts, ops));
      && key in after && after[key].allowed == Nets(texts, desired[text].allowedIps)
      && (after[key].endpoint == desired[text].endpoint <==>
            !Differs(previous, desired, text) || EndpointReachable(texts, live, text, desired[text]))
  {
    var updates, key := UpdatesOf(texts, ops), texts.key(text).value;
    hide IsDiff, UpdatesOf, Nets, Differs, InOrder, Delivered, Agree, AllParse;
    var wants, endpoint := Nets(texts, desired[text].allowedIps), desired[text].endpoint;
    UpdatesKeepOrder(texts, ops);
    DiffAgrees(texts, previous, desired, ops, text);
    PutsOf(texts, previous, desired, ops, key);
    RemovesOf(texts, live, previous, desired, ops, key);
    if !Differs(previous, desired, text) {
      UndifferingIsLive(texts, live, previous, desired, text);
    }
    DeliveredAllowed(live, updates, key, wants, endpoint);
    DeliveredEndpoint(live, updates, key, wants, endpoint);
    if endpoint.Some? {
      SendsOf(texts, previous, desired, ops, text, endpoint.value);
    }
  }

  lemma UndifferingIsLive(texts: Texts, live: Live, previous: Peers, desired: Peers, text: string)
    requires Reports(texts, previous, live) && text in desired && !Differs(previous, desired, text)
    ensures texts.key(text).Some? && HasPeer(texts, live, desired[text], texts.key(text).value)
  {
    var was, wants := previous[text], desired[text];
    SameIps(was, wants);
  }

  lemma ReachedAgrees(texts: Texts, live: Live, desired: Peers)
    requires Reached(texts, live, desired) && OneOwner(live)
    ensures Wellformed(texts, desired) && Agree(texts, desired)
  {
    hide AllParse, Nets;
  }

  lemma ReachedIsSpelled(texts: Texts, live: Live, previous: Peers, desired: Peers, ops: seq<Op>)
    requires IsDiff(previous, desired, ops) && InOrder(ops) && Reports(texts, previous, live)
    requires Wellformed(texts, desired) && Reached(texts, Delivered(live, UpdatesOf(texts, ops)), desired)
    ensures SpelledAsReported(texts, live, desired)
  {
    hide IsDiff, UpdatesOf, InOrder, Delivered, Reports, AllParse, Nets, Removes, Puts;
    var updates := UpdatesOf(texts, ops);
    forall text | text in desired && texts.key(text).Some? && texts.key(text).value in live
      ensures texts.show(texts.key(text).value) in desired
    {
      var key := texts.key(text).value;
      UpdatesKeepOrder(texts, ops);
      RemovesOf(texts, live, previous, desired, ops, key);
      DeliveredHas(live, updates, key);
    }
  }

  lemma OnlyDesiredIsThere(texts: Texts, live: Live, previous: Peers, desired: Peers, ops: seq<Op>, key: PublicKey)
    requires IsDiff(previous, desired, ops) && InOrder(ops) && Reports(texts, previous, live)
    requires Wellformed(texts, desired) && key in Delivered(live, UpdatesOf(texts, ops))
    ensures exists text :: text in desired && texts.key(text) == Some(key)
  {
    hide IsDiff, UpdatesOf, InOrder, Delivered, AllParse, Nets, Removes, Puts, Differs;
    UpdatesKeepOrder(texts, ops);
    DeliveredHas(live, UpdatesOf(texts, ops), key);
    PutsOf(texts, previous, desired, ops, key);
    RemovesOf(texts, live, previous, desired, ops, key);
  }

  /** The device has the desired peers afterwards, and no others, if and only if: every key decodes and
      every allowed IP parses; no allowed IP is wanted by two peers; a key the device has is spelled as it
      reports it; and of the peers that are sent, none has learned an endpoint the desired one is without. */
  lemma SyncReachesIff(texts: Texts, live: Live, previous: Peers, desired: Peers, ops: seq<Op>)
    requires IsDiff(previous, desired, ops) && InOrder(ops) && Reports(texts, previous, live) && OneOwner(live)
    ensures Reached(texts, Delivered(live, UpdatesOf(texts, ops)), desired) <==>
      Reachable(texts, live, previous, desired)
  {
    var after := Delivered(live, UpdatesOf(texts, ops));
    DeliveredOneOwner(live, UpdatesOf(texts, ops));
    hide IsDiff, UpdatesOf, InOrder, Delivered, Reports, AllParse, Nets, Differs, Agree, OneOwner, SpelledAsReported;
    hide EndpointReachable;
    if Reached(texts, after, desired) {
      ReachedAgrees(texts, after, desired);
      ReachedIsSpelled(texts, live, previous, desired, ops);
    }
    if Wellformed(texts, desired) && Agree(texts, desired) && SpelledAsReported(texts, live, desired) {
      forall text | text in desired
        ensures HasPeer(texts, after, desired[text], texts.key(text).value) <==>
          !Differs(previous, desired, text) || EndpointReachable(texts, live, text, desired[text])
      {
        DesiredPeerIsThere(texts, live, previous, desired, ops, text);
      }
      forall key | key in after ensures exists text :: text in desired && texts.key(text) == Some(key) {
        OnlyDesiredIsThere(texts, live, previous, desired, ops, key);
      }
    }
  }

  /** A peer without an endpoint of its own keeps the one the device has learned for it. */
  lemma RoamingIsKept(texts: Texts, live: Live, previous: Peers, desired: Peers, ops: seq<Op>, text: string)
    requires IsDiff(previous, desired, ops) && InOrder(ops) && Reports(texts, previous, live)
    requires Wellformed(texts, desired) && Agree(texts, desired) && SpelledAsReported(texts, live, desired)
    requires text in desired && desired[text].endpoint == None
    ensures var key := texts.key(text).value;
      EndpointOf(Delivered(live, UpdatesOf(texts, ops)), key) == EndpointOf(live, key)
  {
    var key := texts.key(text).value;
    hide IsDiff, UpdatesOf, Nets, InOrder, Delivered, Agree, AllParse;
    UpdatesKeepOrder(texts, ops);
    DiffAgrees(texts, previous, desired, ops, text);
    RemovesOf(texts, live, previous, desired, ops, key);
    DeliveredEndpoint(live, UpdatesOf(texts, ops), key, Nets(texts, desired[text].allowedIps), None);
  }

  /** No text that differs stands for the key. */
  ghost predicate NotAbout(texts: Texts, previous: Peers, desired: Peers, key: PublicKey) {
    forall text :: Differs(previous, desired, text) ==> texts.key(text) != Some(key)
  }

  ghost predicate Kept(live: Live, after: Live, key: PublicKey) {
    && key in live && key in after && after[key].endpoint == live[key].endpoint
    && after[key].allowed <= live[key].allowed
  }

  lemma OthersAreKept(texts: Texts, live: Live, previous: Peers, desired: Peers, ops: seq<Op>, key: PublicKey)
    requires IsDiff(previous, desired, ops) && key in live && NotAbout(texts, previous, desired, key)
    ensures Kept(live, Delivered(live, UpdatesOf(texts, ops)), key)
  {
    hide UpdatesOf, Differs;
    UpdatesHave(texts, ops);
    forall u | u in UpdatesOf(texts, ops) ensures u.key != key {
      var op :| op in ops && UpdateOf(texts, op) == Some(u);
      assert Touches(ops, op.key);
    }
    UntouchedPeer(live, UpdatesOf(texts, ops), key);
  }

  // ---- Sending ----

  /** All the allowed IPs, or nothing as soon as one does not parse. */
  method AllowedOf(texts: Texts, cidrs: seq<string>) returns (allowed: Option<set<Net>>)
    ensures allowed == if AllParse(texts, cidrs) then Some(Nets(texts, cidrs)) else None
  {
    var nets := {};
    for i := 0 to |cidrs|
      invariant AllParse(texts, cidrs[..i]) && nets == Nets(texts, cidrs[..i])
    {
      assert cidrs[..i + 1] == cidrs[..i] + [cidrs[i]];
      var net := texts.net(cidrs[i]);
      if net.None? {
        return None;
      }
      nets := nets + {net.value};
    }
    assert cidrs[..|cidrs|] == cidrs;
    allowed := Some(nets);
  }

  /** One bad peer does not block the others: its operation is left out. */
  method Updates(texts: Texts, ops: seq<Op>) returns (updates: seq<Update>)
    ensures updates == UpdatesOf(texts, ops)
  {
    updates := [];
    for i := 0 to |ops|
      invariant updates == UpdatesOf(texts, ops[..i])
    {
      hide AllParse, Nets;
      assert ops[..i + 1][..i] == ops[..i];
      var key := texts.key(ops[i].key);
      if key.None? {
        continue;
      }
      match ops[i].peer
      case None =>
        updates := updates + [Remove(key.value)];
      case Some(peer) =>
        var allowed := AllowedOf(texts, peer.allowedIps);
        if allowed.None? {
          continue;
        }
        updates := updates + [Replace(key.value, allowed.value, SentEndpoint(texts, peer.endpoint))];
    }
    assert ops[..|ops|] == ops;
  }

  class Device {
    var live: Live

    constructor (live: Live)
      ensures this.live == live
    {
      this.live := live;
    }

    /** One call with all the updates; one that fails changes nothing. */
    method SetDevice(updates: seq<Update>) returns (ok: bool)
      modifies this
      ensures live == if ok then Delivered(old(live), updates) else old(live)
    {
      ok := *;
      if ok {
        live := Delivered(live, updates);
      }
    }

    /** Sends what differs. Unless the call fails, the device has the desired peers afterwards exactly when
        they are reachable; and whatever else is sent, a peer nothing is sent for keeps its endpoint and
        gains no allowed IP. */
    method SyncPeers(texts: Texts, previous: seq<Peer>, desired: seq<Peer>) returns (ok: bool)
      requires Reports(texts, ByKey(previous), live) && OneOwner(live)
      modifies this
      ensures OneOwner(live) && (!ok ==> live == old(live))
      ensures ok ==> (Reached(texts, live, ByKey(desired)) <==>
        Reachable(texts, old(live), ByKey(previous), ByKey(desired)))
      ensures ok ==> forall key :: key in old(live) && NotAbout(texts, ByKey(previous), ByKey(desired), key) ==>
        Kept(old(live), live, key)
    {
      hide *;
      var ops := DiffPeers(previous, desired);
      ghost var prev, want := ByKey(previous), ByKey(desired);
      SyncReachesIff(texts, live, prev, want, ops);
      DeliveredOneOwner(live, UpdatesOf(texts, ops));
      forall key | key in live && NotAbout(texts, prev, want, key)
        ensures Kept(live, Delivered(live, UpdatesOf(texts, ops)), key)
      {
        OthersAreKept(texts, live, prev, want, ops, key);
      }
      DeliveredNone(texts, live);
      var updates := Updates(texts, ops);
      if ops == [] || updates == [] {
        return true;
      }
      ok := SetDevice(updates);
    }

    /** One update of an interface's peers from its config. Unless the call fails, and as far as the peers
        are reachable, every entry that resolves has its peer. */
    method EnsurePeers(texts: Texts, entries: seq<PeerEntry>, lookups: seq<Option<string>>, previous: seq<Peer>)
        returns (ok: bool)
      requires |entries| == |lookups| && DistinctEntries(entries)
      requires Reports(texts, ByKey(previous), live) && OneOwner(live)
      modifies this
      ensures OneOwner(live) && (!ok ==> live == old(live))
      ensures var want := ByKey(Desired(entries, lookups, previous));
        && (ok ==> (Reached(texts, live, want) <==> Reachable(texts, old(live), ByKey(previous), want)))
        && (ok && Reachable(texts, old(live), ByKey(previous), want) ==>
              forall i :: 0 <= i < |entries| && ResolvedPeer(entries[i], lookups[i]).Some? ==>
                HasEntry(texts, live, ResolvedPeer(entries[i], lookups[i]).value))
    {
      hide *;
      var desired := DesiredPeers(entries, lookups, previous);
      ok := SyncPeers(texts, previous, desired);
      if Reached(texts, live, ByKey(desired)) {
        forall i | 0 <= i < |entries| && ResolvedPeer(entries[i], lookups[i]).Some?
          ensures HasEntry(texts, live, ResolvedPeer(entries[i], lookups[i]).value)
        {
          EntryIsThere(texts, live, entries, lookups, previous, i);
        }
      }
    }
  }

  lemma DeliveredNone(texts: Texts, live: Live)
    ensures Delivered(live, []) == live && UpdatesOf(texts, []) == []
  {}

  ghost predicate HasEntry(texts: Texts, live: Live, peer: Peer) {
    texts.key(peer.publicKey).Some? && HasPeer(texts, live, peer, texts.key(peer.publicKey).value)
  }

  lemma EntryIsThere(texts: Texts, live: Live, entries: seq<PeerEntry>, lookups: seq<Option<string>>,
                     previous: seq<Peer>, i: nat)
    requires |entries| == |lookups| && DistinctEntries(entries) && i < |entries|
    requires ResolvedPeer(entries[i], lookups[i]).Some?
    requires Reached(texts, live, ByKey(Desired(entries, lookups, previous)))
    ensures HasEntry(texts, live, ResolvedPeer(entries[i], lookups[i]).value)
  {
    hide DistinctEntries, Desired, ByKey, HasPeer;
    DesiredAt(entries, lookups, previous, entries[i].publicKey);
  }

  // ---- Two peers that are not reached ----

  /** A peer without an endpoint whose device has learned one: it is sent every time, nothing changes, and it
      still differs from what is desired. */
  lemma LearnedEndpointExample(texts: Texts, text: string, ip: string, endpoint: string, ops: seq<Op>)
    requires texts.key(text).Some? && texts.show(texts.key(text).value) == text && texts.net(ip).Some?
    requires var previous := map[text := Peer(text, [ip], Some(endpoint), false)];
      IsDiff(previous, map[text := Peer(text, [ip], None, false)], ops) && InOrder(ops)
    ensures var live := map[texts.key(text).value := LivePeer({texts.net(ip).value}, Some(endpoint))];
      && Reports(texts, map[text := Peer(text, [ip], Some(endpoint), false)], live) && OneOwner(live)
      && Touches(ops, text)
      && !Reached(texts, Delivered(live, UpdatesOf(texts, ops)), map[text := Peer(text, [ip], None, false)])
  {
    var key := texts.key(text).value;
    var live := map[key := LivePeer({texts.net(ip).value}, Some(endpoint))];
    var previous, desired := map[text := Peer(text, [ip], Some(endpoint), false)],
      map[text := Peer(text, [ip], None, false)];
    assert Nets(texts, [ip]) == {texts.net(ip).value} by {
      assert ip in [ip];
    }
    assert Reports(texts, previous, live) && OneOwner(live);
    assert Differs(previous, desired, text);
    assert Touches(ops, text);
    assert !EndpointReachable(texts, live, text, desired[text]);
    SyncReachesIff(texts, live, previous, desired, ops);
  }

  /** A key spelled in another way than it is reported - with a space before it, say - is put in place and
      then removed under the text it is reported by: the peer is gone. */
  lemma SpacedKeyExample(texts: Texts, text: string, reported: string, ip: string, ops: seq<Op>)
    requires texts.key(text).Some? && texts.key(reported) == texts.key(text) && text != reported
    requires texts.show(texts.key(text).value) == reported && texts.net(ip).Some?
    requires IsDiff(map[reported := Peer(reported, [ip], None, false)], map[text := Peer(text, [ip], None, false)], ops)
    requires InOrder(ops)
    ensures var live := map[texts.key(text).value := LivePeer({texts.net(ip).value}, None)];
      && Reports(texts, map[reported := Peer(reported, [ip], None, false)], live)
      && texts.key(text).value !in Delivered(live, UpdatesOf(texts, ops))
  {
    var key := texts.key(text).value;
    var live := map[key := LivePeer({texts.net(ip).value}, None)];
    var previous, desired := map[reported := Peer(reported, [ip], None, false)],
      map[text := Peer(text, [ip], None, false)];
    assert Nets(texts, [ip]) == {texts.net(ip).value} by {
      assert ip in [ip];
    }
    assert Reports(texts, previous, live) && Wellformed(texts, desired);
    hide IsDiff, Reports, Delivered, UpdatesOf, InOrder, Nets;
    UpdatesKeepOrder(texts, ops);
    RemovesOf(texts, live, previous, desired, ops, key);
    DeliveredHas(live, UpdatesOf(texts, ops), key);
  }
}
