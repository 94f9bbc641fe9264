/** The kernel's routes as the route tracking sees them, what one reconciliation of one interface may
    do to them, and what any such step keeps. */
module Routes {

  /** A destination prefix in the form the kernel stores. */
  datatype Dest = Dest(bits: nat, len: nat)

  /** A CIDR as text. Many spellings can name one destination; `spelling` 0 is the one the kernel's
      routes are formatted back to. */
  datatype Text = Text(dest: Dest, spelling: nat)

  type Ifindex = nat

  datatype Protocol = Ours | Foreign(id: nat)

  datatype Route = Route(dev: Ifindex, proto: Protocol)

  /** One route per destination: adding is a replace. */
  type Table = map<Dest, Route>

  function Format(d: Dest): Text {
    Text(d, 0)
  }

  predicate Canonical(t: Text) {
    t == Format(t.dest)
  }

  function Dests(texts: set<Text>): set<Dest> {
    set t | t in texts :: t.dest
  }

  /** The destinations this daemon's routes lead to through `dev`. */
  function OursOn(table: Table, dev: Ifindex): set<Dest> {
    set d | d in table && table[d] == Route(dev, Ours)
  }

  function AddAll(table: Table, dev: Ifindex, dests: set<Dest>): Table {
    map d | d in table.Keys + dests :: if d in dests then Route(dev, Ours) else table[d]
  }

  /** Deleting asks for the device and the protocol, and a missing route is no error. */
  function DeleteAll(table: Table, dev: Ifindex, dests: set<Dest>): Table {
    map d | d in table && !(d in dests && table[d] == Route(dev, Ours)) :: table[d]
  }

  /** What the startup seed reads back for `dev`; a default route carries no destination to read. */
  function Seed(table: Table, dev: Ifindex): set<Text> {
    set d | d in OursOn(table, dev) && d.len != 0 :: Format(d)
  }

  /** One interface reconciled: of the needed texts not installed yet, some are added, of the installed
      ones no longer needed, some are deleted - which ones is up to the failures. */
  datatype Change = Change(added: set<Text>, deleted: set<Text>)

  ghost predicate Allowed(change: Change, entry: set<Text>, need: set<Text>) {
    change.added <= need - entry && change.deleted <= entry - need
  }

  ghost predicate Clean(change: Change, entry: set<Text>, need: set<Text>) {
    change.added == need - entry && change.deleted == entry - need
  }

  ghost function EntryAfter(entry: set<Text>, change: Change): set<Text> {
    entry + change.added - change.deleted
  }

  ghost function TableAfter(table: Table, dev: Ifindex, change: Change): Table {
    DeleteAll(AddAll(table, dev, Dests(change.added)), dev, Dests(change.deleted))
  }

  /** No destination goes by two spellings. */
  ghost predicate OneSpelling(texts: set<Text>) {
    forall t, u :: t in texts && u in texts && t.dest == u.dest ==> t == u
  }

  /** The routes on the interface itself follow the change exactly, as long as no destination goes by
      two spellings. */
  lemma OursAfter(table: Table, dev: Ifindex, entry: set<Text>, need: set<Text>, change: Change)
    requires Allowed(change, entry, need) && OneSpelling(entry + need)
    ensures OursOn(TableAfter(table, dev, change), dev)
      == OursOn(table, dev) + Dests(change.added) - Dests(change.deleted)
    ensures Dests(change.added) !! Dests(change.deleted)
  {}

  /** Routes on another interface: none appears, and only destinations added here disappear. Routes of
      other protocols likewise. */
  lemma OthersAfter(table: Table, dev: Ifindex, change: Change, other: Ifindex)
    requires other != dev
    ensures OursOn(TableAfter(table, dev, change), other) == OursOn(table, other) - Dests(change.added)
  {}

  lemma ForeignAfter(table: Table, dev: Ifindex, change: Change, d: Dest)
    ensures d in table && table[d].proto.Foreign? && d !in Dests(change.added) ==>
      d in TableAfter(table, dev, change) && TableAfter(table, dev, change)[d] == table[d]
    ensures d in TableAfter(table, dev, change) && TableAfter(table, dev, change)[d].proto.Foreign? ==>
      d in table && TableAfter(table, dev, change)[d] == table[d]
  {}

  /** Whatever fails: no route a fresh peer needs goes, and nothing moves away from the target. */
  lemma NeverAway(table: Table, dev: Ifindex, entry: set<Text>, need: set<Text>, change: Change)
    requires Allowed(change, entry, need) && OneSpelling(entry + need)
    ensures var before, after := OursOn(table, dev), OursOn(TableAfter(table, dev, change), dev);
      && Dests(need) * before <= after
      && Dests(need) - after <= Dests(need) - before
      && after - Dests(need) <= before - Dests(need)
  {
    OursAfter(table, dev, entry, need, change);
  }

  /** A clean start - a seed and a reconciliation without failures - leaves exactly the needed routes,
      if and only if no default route of ours is left over that nobody needs. */
  lemma CleanStartIff(table: Table, dev: Ifindex, need: set<Text>, change: Change)
    requires (forall t :: t in need ==> Canonical(t)) && Clean(change, Seed(table, dev), need)
    ensures OursOn(TableAfter(table, dev, change), dev) == Dests(need)
      <==> forall d :: d in OursOn(table, dev) && d.len == 0 ==> d in Dests(need)
  {
    var entry := Seed(table, dev);
    OursAfter(table, dev, entry, need, change);
    var ours := OursOn(table, dev);
    forall d ensures d in ours + Dests(change.added) - Dests(change.deleted)
      <==> d in Dests(need) || (d in ours && d.len == 0)
    {
      assert d in Dests(need) <==> Format(d) in need;
      assert Format(d) in entry <==> d in ours && d.len != 0;
      assert d in Dests(change.added) <==> Format(d) in need - entry;
      assert d in Dests(change.deleted) <==> Format(d) in entry - need;
    }
  }

  /** A default route of ours from before a restart, which nobody needs any more, outlives a clean start. */
  lemma LeftoverDefaultExample(dev: Ifindex, d: Dest)
    requires d.len == 0
    ensures var table := map[d := Route(dev, Ours)];
      d in OursOn(TableAfter(table, dev, Change({}, Seed(table, dev))), dev)
  {
    var table := map[d := Route(dev, Ours)];
    assert Seed(table, dev) == {};
    assert Dests({}) == {};
  }
}
