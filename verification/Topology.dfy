/** The topology a slipmesh file describes: nodes, the mesh links between them, roadwarrior pools, and
    the obfuscation parameters each of these may set. */
module Topologies {
  import opened Lists
  import opened Wrappers

  datatype Field =
    | Jc | Jmin | Jmax | S1 | S2 | S3 | S4 | H1 | H2 | H3 | H4 | I1 | I2 | I3 | I4 | I5
    | HeaderProtectionKey | ContentPaddingAddition | RekeyAfterTime | RekeyTimeout | RejectAfterTime
    | KeepaliveTimeout | MaxHandshakeAttempts | RandomTrailers | DisableCookies

  datatype Setting = Number(n: nat) | Words(text: string) | Switch(on: bool)

  /** The fields that are set. */
  type Obfuscation = map<Field, Setting>

  /** The fields the generator sets: these nine and no others. */
  function Nine(): set<Field> {
    {Jc, Jmin, Jmax, S1, S2, H1, H2, H3, H4}
  }

  /** `nodeId` is the identity as parsed: `None` for a text that is no IPv4-shaped identity. */
  datatype Node = Node(name: string, nodeId: Option<bv32>, endpoint: Option<string>, privateKey: Option<string>)

  datatype Link = Link(one: string, other: string, port: nat, obfuscation: Obfuscation, plain: bool)

  datatype Client = Client(name: string, publicKey: string, allowedIps: seq<string>, advancedSecurity: bool)

  datatype Pool = Pool(
    name: string,
    nodes: seq<string>,
    addresses: seq<string>,
    listenPort: nat,
    privateKey: Option<string>,
    obfuscation: Obfuscation,
    plain: bool,
    clients: seq<Client>)

  /** `global` is the obfuscation every link and pool falls back to; `bypass` names the nodes that have
      bypass entries. */
  datatype Topology = Topology(
    global: Obfuscation,
    nodes: seq<Node>,
    links: seq<Link>,
    pools: seq<Pool>,
    bypass: seq<string>)

  // ---- Link keys ----

  /** The key of a link: its two names in order, whichever way round the link has them. */
  function LinkKey(one: string, other: string): string {
    if AtMost(one, other) then one + "|" + other else other + "|" + one
  }

  lemma LinkKeyIsSymmetric(one: string, other: string)
    ensures LinkKey(one, other) == LinkKey(other, one)
  {
    AtMostIsTotal(one, other);
  }

  lemma {:induction false} JoinedOnce(a: string, b: string, c: string, d: string)
    requires '|' !in a && '|' !in c
    requires a + "|" + b == c + "|" + d
    ensures a == c && b == d
  {
    var s := a + "|" + b;
    var t := c + "|" + d;
    assert s[|a|] == '|' && t[|c|] == '|';
    assert forall i :: 0 <= i < |a| ==> s[i] == a[i] && a[i] in a;
    assert forall i :: 0 <= i < |c| ==> t[i] == c[i] && c[i] in c;
    assert a == s[..|a|] && c == t[..|c|];
    assert b == s[|a| + 1..] && d == t[|c| + 1..];
  }

  /** Links of names without a bar have one key exactly when they join the same two nodes. */
  lemma LinkKeyIsCanonical(a: string, b: string, c: string, d: string)
    requires '|' !in a && '|' !in b && '|' !in c && '|' !in d
    ensures LinkKey(a, b) == LinkKey(c, d) <==> (a == c && b == d) || (a == d && b == c)
  {
    LinkKeyIsSymmetric(a, b);
    if LinkKey(a, b) == LinkKey(c, d) {
      var p, q := if AtMost(a, b) then a else b, if AtMost(a, b) then b else a;
      var r, s := if AtMost(c, d) then c else d, if AtMost(c, d) then d else c;
      JoinedOnce(p, q, r, s);
    }
  }

  /** With a bar in a name, links between four different nodes can have one key. */
  lemma BarsConfuseLinkKeys()
    ensures LinkKey("a|b", "c") == LinkKey("a", "b|c")
  {
    assert "a|b" + "|" + "c" == "a|b|c";
    assert "a" + "|" + "b|c" == "a|b|c";
  }
}
