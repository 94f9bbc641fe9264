/** The bypass pipeline: deduplicate and collapse per label, then punch every exclusion out of every
    included prefix. Looking a source up is an oracle that gives its entries or fails. */
module Resolver {
  import opened Blocks
  import opened CidrOps
  import opened Cidrs
  import opened Collapsing
  import opened Lists
  import opened Words
  import opened Wrappers

  /** One entry of a source: its prefix, unless the text of it did not parse, and its label. */
  datatype Entry = Entry(net: Option<Cidr>, tag: string)

  type Labelled = (Cidr, string)

  datatype Error = SourceFailed | NothingIncluded
  datatype Result<+T> = Ok(value: T) | Err(error: Error)

  // ---- First label wins ----

  function LabelOf(entries: seq<Entry>, c: Cidr): Option<string> {
    if entries == [] then None
    else if entries[0].net == Some(c) then Some(entries[0].tag)
    else LabelOf(entries[1..], c)
  }

  lemma {:induction false} LabelOfAppend(entries: seq<Entry>, e: Entry, c: Cidr)
    ensures LabelOf(entries + [e], c) ==
      if LabelOf(entries, c).Some? then LabelOf(entries, c)
      else if e.net == Some(c) then Some(e.tag) else None
  {
    if entries == [] {
      assert (entries + [e])[1..] == [];
    } else {
      assert (entries + [e])[1..] == entries[1..] + [e];
      LabelOfAppend(entries[1..], e, c);
    }
  }

  ghost function ParsedNets(entries: seq<Entry>): set<Cidr> {
    set e | e in entries && e.net.Some? :: e.net.value
  }

  lemma {:induction false} LabelOfParsed(entries: seq<Entry>, c: Cidr)
    ensures LabelOf(entries, c).Some? <==> c in ParsedNets(entries)
  {
    if entries == [] {
    } else {
      LabelOfParsed(entries[1..], c);
      assert forall e :: e in entries <==> e == entries[0] || e in entries[1..];
    }
  }

  /** The label of a prefix is that of the first entry that names it. */
  lemma {:induction false} LabelIsFirst(entries: seq<Entry>, c: Cidr, i: nat)
    requires i < |entries| && entries[i].net == Some(c) && forall j :: 0 <= j < i ==> entries[j].net != Some(c)
    ensures LabelOf(entries, c) == Some(entries[i].tag)
  {
    if i == 0 {
    } else {
      LabelIsFirst(entries[1..], c, i - 1);
    }
  }

  /** The prefixes that end up under `tag`: those whose first entry carries it. */
  ghost function NetsLabelled(entries: seq<Entry>, tag: string): set<Cidr> {
    set c | c in ParsedNets(entries) && LabelOf(entries, c) == Some(tag)
  }

  ghost function NetsOf(result: seq<Labelled>, tag: string): set<Cidr> {
    set p | p in result && p.1 == tag :: p.0
  }

  /** Every label's prefixes are collapsed on their own. */
  ghost predicate Aggregates(entries: seq<Entry>, result: seq<Labelled>) {
    forall tag :: CollapsesTo(NetsLabelled(entries, tag), NetsOf(result, tag))
  }

  method GroupByNet(entries: seq<Entry>) returns (byNet: map<Cidr, string>)
    ensures forall c :: LabelOf(entries, c) == if c in byNet then Some(byNet[c]) else None
  {
    byNet := map[];
    for i := 0 to |entries|
      invariant forall c :: LabelOf(entries[..i], c) == if c in byNet then Some(byNet[c]) else None
    {
      var e := entries[i];
      forall c {
        LabelOfAppend(entries[..i], e, c);
      }
      assert entries[..i + 1] == entries[..i] + [e];
      if e.net.None? {
        continue;
      }
      if e.net.value !in byNet {
        byNet := byNet[e.net.value := e.tag];
      }
    }
    assert entries[..|entries|] == entries;
  }

  ghost predicate Groups(byNet: map<Cidr, string>, done: set<Cidr>, byLabel: map<string, seq<Cidr>>)
    requires done <= byNet.Keys
  {
    forall tag :: (if tag in byLabel then Elements(byLabel[tag]) else {})
      == set c | c in done && byNet[c] == tag
  }

  /** Whatever order the map is walked in. */
  method GroupByLabel(byNet: map<Cidr, string>) returns (byLabel: map<string, seq<Cidr>>)
    ensures Groups(byNet, byNet.Keys, byLabel)
  {
    byLabel := map[];
    var todo := byNet.Keys;
    while todo != {}
      invariant todo <= byNet.Keys
      invariant Groups(byNet, byNet.Keys - todo, byLabel)
      decreases todo
    {
      var c :| c in todo;
      var tag := byNet[c];
      ghost var before, done := byLabel, byNet.Keys - todo;
      var nets := if tag in byLabel then byLabel[tag] else [];
      byLabel := byLabel[tag := nets + [c]];
      todo := todo - {c};
      ElementsPush(nets, c);
      assert byNet.Keys - todo == done + {c};
      forall l ensures (if l in byLabel then Elements(byLabel[l]) else {}) == set d | d in done + {c} && byNet[d] == l {
        assert (if l in before then Elements(before[l]) else {}) == set d | d in done && byNet[d] == l;
      }
    }
    assert byNet.Keys - todo == byNet.Keys;
  }

  lemma LabelsNothing(entries: seq<Entry>, byNet: map<Cidr, string>, byLabel: map<string, seq<Cidr>>, tag: string)
    requires forall c :: LabelOf(entries, c) == if c in byNet then Some(byNet[c]) else None
    requires Groups(byNet, byNet.Keys, byLabel)
    ensures NetsLabelled(entries, tag) == if tag in byLabel then Elements(byLabel[tag]) else {}
  {
    forall c ensures c in ParsedNets(entries) <==> c in byNet.Keys {
      LabelOfParsed(entries, c);
    }
  }

  function Tagged(nets: seq<Cidr>, tag: string): seq<Labelled> {
    seq(|nets|, i requires 0 <= i < |nets| => (nets[i], tag))
  }

  lemma NetsOfTagged(result: seq<Labelled>, nets: seq<Cidr>, tag: string, other: string)
    ensures NetsOf(result + Tagged(nets, tag), other) ==
      NetsOf(result, other) + (if other == tag then Elements(nets) else {})
  {
    var pushed := Tagged(nets, tag);
    forall p ensures p in pushed <==> p.1 == tag && p.0 in nets {
      if p.1 == tag && p.0 in nets {
        var i :| 0 <= i < |nets| && nets[i] == p.0;
        assert pushed[i] == p;
      }
    }
    forall c
      ensures c in NetsOf(result + pushed, other) <==>
        c in NetsOf(result, other) + (if other == tag then Elements(nets) else {})
    {
      assert c in NetsOf(result + pushed, other) <==> (c, other) in result + pushed;
      assert c in NetsOf(result, other) <==> (c, other) in result;
    }
  }

  lemma DistinctTagged(result: seq<Labelled>, nets: seq<Cidr>, tag: string)
    requires NoDuplicates(result) && NoDuplicates(nets)
    requires NetsOf(result, tag) !! Elements(nets)
    ensures NoDuplicates(result + Tagged(nets, tag))
  {
    var pushed := Tagged(nets, tag);
    forall i, k | 0 <= i < |result| && 0 <= k < |nets| ensures result[i] != pushed[k] {
      var c := nets[k];
      assert pushed[k] == (c, tag) && c in Elements(nets);
      assert result[i] == (c, tag) ==> c in NetsOf(result, tag);
    }
  }

  method PushAll(result: seq<Labelled>, nets: seq<Cidr>, tag: string) returns (longer: seq<Labelled>)
    ensures longer == result + Tagged(nets, tag)
  {
    longer := result;
    for k := 0 to |nets|
      invariant longer == result + Tagged(nets[..k], tag)
    {
      assert Tagged(nets[..k + 1], tag) == Tagged(nets[..k], tag) + [(nets[k], tag)];
      longer := longer + [(nets[k], tag)];
    }
    assert nets[..|nets|] == nets;
  }

  // ---- The order of results ----

  /** Pairs in order: by prefix, then by label. */
  predicate PairAtMost(p: Labelled, q: Labelled) {
    Less(p.0, q.0) || (p.0 == q.0 && AtMost(p.1, q.1))
  }

  /** The order of the texts of pairs, prefixes as `format` writes them. */
  predicate TextAtMost(format: Cidr -> string, p: Labelled, q: Labelled) {
    if format(p.0) == format(q.0) then AtMost(p.1, q.1) else AtMost(format(p.0), format(q.0))
  }

  lemma PairsAreOrdered()
    ensures TotalOrder(PairAtMost)
  {
    hide Less, AtMost;
    forall p, q ensures PairAtMost(p, q) || PairAtMost(q, p) {
      LessOrders(p.0, q.0, p.0);
      AtMostIsTotal(p.1, q.1);
    }
    forall p, q, r | PairAtMost(p, q) && PairAtMost(q, r) ensures PairAtMost(p, r) {
      LessOrders(p.0, q.0, r.0);
      if AtMost(p.1, q.1) && AtMost(q.1, r.1) {
        AtMostIsTransitive(p.1, q.1, r.1);
      }
    }
  }

  lemma TextsAreOrdered(format: Cidr -> string)
    ensures TotalOrder((p, q) => TextAtMost(format, p, q))
  {
    hide AtMost;
    forall p, q ensures TextAtMost(format, p, q) || TextAtMost(format, q, p) {
      AtMostIsTotal(format(p.0), format(q.0));
      AtMostIsTotal(p.1, q.1);
    }
    forall p, q, r | TextAtMost(format, p, q) && TextAtMost(format, q, r) ensures TextAtMost(format, p, r) {
      TextsChain(format, p, q, r);
    }
  }

  lemma TextsChain(format: Cidr -> string, p: Labelled, q: Labelled, r: Labelled)
    requires TextAtMost(format, p, q) && TextAtMost(format, q, r)
    ensures TextAtMost(format, p, r)
  {
    hide AtMost;
    if AtMost(p.1, q.1) && AtMost(q.1, r.1) {
      AtMostIsTransitive(p.1, q.1, r.1);
    }
    if AtMost(format(p.0), format(q.0)) && AtMost(format(q.0), format(r.0)) {
      AtMostIsTransitive(format(p.0), format(q.0), format(r.0));
      AtMostIsTotal(format(p.0), format(q.0));
    }
  }

  /** Sorting loses and adds nothing. */
  lemma SortingKeeps(result: seq<Labelled>, sorted: seq<Labelled>)
    requires multiset(result) == multiset(sorted)
    ensures NoDuplicates(result) ==> NoDuplicates(sorted)
    ensures forall tag :: NetsOf(sorted, tag) == NetsOf(result, tag)
  {
    SameMembers(result, sorted);
    hide NoDuplicates;
    forall tag ensures NetsOf(sorted, tag) == NetsOf(result, tag) {
      forall c ensures c in NetsOf(sorted, tag) <==> c in NetsOf(result, tag) {
        assert c in NetsOf(sorted, tag) <==> (c, tag) in sorted;
        assert c in NetsOf(result, tag) <==> (c, tag) in result;
      }
    }
  }

  method DedupeAndAggregate(entries: seq<Entry>) returns (result: seq<Labelled>)
    ensures Aggregates(entries, result)
    ensures NoDuplicates(result) && OrderedBy(result, PairAtMost)
  {
    hide CollapsesTo, Sorted, OrderedBy, TotalOrder;
    var byNet := GroupByNet(entries);
    var byLabel := GroupByLabel(byNet);
    result := [];
    var todo := byLabel.Keys;
    while todo != {}
      invariant todo <= byLabel.Keys
      invariant NoDuplicates(result)
      invariant forall tag :: tag in byLabel.Keys - todo ==> CollapsesTo(Elements(byLabel[tag]), NetsOf(result, tag))
      invariant forall tag :: tag !in byLabel.Keys - todo ==> NetsOf(result, tag) == {}
      decreases todo
    {
      hide NoDuplicates;
      var tag :| tag in todo;
      var nets := Collapse(byLabel[tag]);
      SortedNoDuplicates(nets);
      DistinctTagged(result, nets, tag);
      ghost var before := result;
      result := PushAll(result, nets, tag);
      todo := todo - {tag};
      forall other ensures NetsOf(result, other) == if other == tag then Elements(nets) else NetsOf(before, other) {
        NetsOfTagged(before, nets, tag, other);
      }
    }
    forall tag ensures CollapsesTo(NetsLabelled(entries, tag), NetsOf(result, tag)) {
      LabelsNothing(entries, byNet, byLabel, tag);
      if tag !in byLabel {
        CollapsesEmpty();
      }
    }
    PairsAreOrdered();
    SortingKeeps(result, SortedBy(result, PairAtMost));
    result := SortedBy(result, PairAtMost);
  }

  lemma CollapsesEmpty()
    ensures CollapsesTo({}, {})
  {}

  // ---- Punching one exclusion out ----

  /** `c` is one of the prefixes that punching `exc` out of `n` leaves of it. */
  ghost predicate IsLeft(c: Cidr, n: Cidr, exc: Cidr) {
    && !Contains(exc, n)
    && if Contains(n, exc) then Maximal(c, Block(n) - Block(exc)) else c == n
  }

  ghost predicate Punched(pending: seq<Cidr>, exc: Cidr, left: seq<Cidr>) {
    forall c :: c in left <==> exists n :: n in pending && IsLeft(c, n, exc)
  }

  lemma LeftInside(c: Cidr, n: Cidr, exc: Cidr)
    requires Aligned(n) && Aligned(exc) && IsLeft(c, n, exc)
    ensures Aligned(c) && Block(c) <= Block(n) - Block(exc)
  {
    hide In, Contains, Aligned, Parent;
    Nested(n, exc);
  }

  /** The maximal blocks of a set, punched, are the maximal blocks of the set without the exclusion. */
  lemma PunchedIsMaximal(pending: seq<Cidr>, exc: Cidr, left: seq<Cidr>, addrs: iset<bv32>)
    requires Aligned(exc)
    requires IsMaximalBlocks(Elements(pending), addrs)
    requires Punched(pending, exc, left)
    ensures IsMaximalBlocks(Elements(left), addrs - Block(exc))
  {
    hide In, Contains, Aligned, Parent, IsLeft;
    assert forall n :: n in pending <==> n in Elements(pending);
    forall c ensures c in Elements(left) <==> Maximal(c, addrs - Block(exc)) {
      if c in left {
        var n :| n in pending && IsLeft(c, n, exc);
        LeftIsMaximal(c, n, exc, addrs);
      }
      if Maximal(c, addrs - Block(exc)) {
        var n := Climb(c, addrs);
        MaximalIsLeft(c, n, exc, addrs);
        assert n in pending;
      }
    }
  }

  lemma LeftIsMaximal(c: Cidr, n: Cidr, exc: Cidr, addrs: iset<bv32>)
    requires Aligned(exc) && Maximal(n, addrs) && IsLeft(c, n, exc)
    ensures Maximal(c, addrs - Block(exc))
  {
    hide In, Contains, Aligned, Parent;
    LeftInside(c, n, exc);
    if c.len > 0 && Contains(n, exc) {
      ParentOfInner(c, n, exc);
    }
  }

  /** A proper part of `n` has its parent inside `n`. */
  lemma ParentOfInner(c: Cidr, n: Cidr, exc: Cidr)
    requires Aligned(n) && Aligned(c) && Contains(n, exc) && c.len > 0
    requires Block(c) <= Block(n) - Block(exc)
    ensures Block(Parent(c)) <= Block(n)
  {
    hide In, Aligned, NetworkAddr;
    SubsetIsContains(n, c);
    ContainsIsSubset(n, exc);
    NetworkSameBlock(exc, exc.addr);
    assert exc.addr in Block(exc);
    if n.len == c.len {
      SameLength(n, c);
      assert false;
    } else {
      ParentInside(n, c);
    }
  }

  lemma MaximalIsLeft(c: Cidr, n: Cidr, exc: Cidr, addrs: iset<bv32>)
    requires Aligned(exc) && Maximal(n, addrs)
    requires Maximal(c, addrs - Block(exc)) && Contains(n, c)
    ensures IsLeft(c, n, exc)
  {
    hide In, Contains, Aligned, Parent;
    ContainsIsSubset(n, c);
    NetworkSameBlock(c, c.addr);
    assert c.addr in Block(c);
    if Contains(exc, n) {
      ContainsIsSubset(exc, n);
      assert false;
    }
    Nested(n, exc);
    if !Contains(n, exc) {
      MaximalIsTop(c, n, addrs - Block(exc));
    }
  }

  /** Aligned, without duplicates, and none inside another: what the pipeline punches holes into. */
  ghost predicate Tidy(nets: seq<Cidr>) {
    AllAligned(Elements(nets)) && Antichain(Elements(nets)) && NoDuplicates(nets)
  }

  lemma LeftApart(c: Cidr, n: Cidr, n': Cidr, exc: Cidr)
    requires Aligned(n) && Aligned(n') && Aligned(exc)
    requires !Contains(n, n') && !Contains(n', n)
    ensures !(IsLeft(c, n, exc) && IsLeft(c, n', exc))
  {
    hide In, Contains, Aligned, Parent, IsLeft;
    if IsLeft(c, n, exc) && IsLeft(c, n', exc) {
      LeftInside(c, n, exc);
      LeftInside(c, n', exc);
      NetworkSameBlock(c, c.addr);
      assert c.addr in Block(c);
      Nested(n, n');
      assert false;
    }
  }

  lemma AppendLeft(pending: seq<Cidr>, i: nat, exc: Cidr, left: seq<Cidr>, pieces: seq<Cidr>)
    requires i < |pending|
    requires Punched(pending[..i], exc, left)
    requires forall c :: c in pieces <==> IsLeft(c, pending[i], exc)
    ensures Punched(pending[..i + 1], exc, left + pieces)
    ensures Tidy(pending) && Aligned(exc) && NoDuplicates(left) && NoDuplicates(pieces) ==> NoDuplicates(left + pieces)
  {
    hide Contains, Aligned, IsLeft;
    assert pending[..i + 1] == pending[..i] + [pending[i]];
    if Tidy(pending) && Aligned(exc) && NoDuplicates(left) && NoDuplicates(pieces) {
      forall j, k | 0 <= j < |left| && 0 <= k < |pieces| ensures left[j] != pieces[k] {
        var c := left[j];
        assert c in left;
        var n :| n in pending[..i] && IsLeft(c, n, exc);
        assert n in Elements(pending) && pending[i] in Elements(pending);
        assert n != pending[i];
        LeftApart(c, n, pending[i], exc);
        assert pieces[k] in pieces;
      }
    }
  }

  /** The inner loop: each pending prefix is dropped, split around the exclusion, or kept. */
  method PunchOut(pending: seq<Cidr>, exc: Cidr) returns (next: seq<Cidr>)
    ensures Punched(pending, exc, next)
    ensures Tidy(pending) && Aligned(exc) ==> NoDuplicates(next)
  {
    hide Contains, Aligned, In, Tidy, Maximal;
    next := [];
    for i := 0 to |pending|
      invariant Punched(pending[..i], exc, next)
      invariant Tidy(pending) && Aligned(exc) ==> NoDuplicates(next)
    {
      var n := pending[i];
      if Contains(exc, n) {
        AppendLeft(pending, i, exc, next, []);
        assert next + [] == next;
        continue;
      }
      var pieces;
      if Contains(n, exc) {
        pieces := AddressExclude(n, exc);
        assert forall c :: c in pieces <==> c in Elements(pieces);
      } else {
        pieces := [n];
      }
      AppendLeft(pending, i, exc, next, pieces);
      next := next + pieces;
    }
    assert pending[..|pending|] == pending;
  }

  lemma MaximalIsTidy(nets: seq<Cidr>, addrs: iset<bv32>)
    requires IsMaximalBlocks(Elements(nets), addrs) && NoDuplicates(nets)
    ensures Tidy(nets)
  {
    hide Contains, Aligned, In;
    MaximalIsCanonical(Elements(nets), addrs);
  }

  /** `c` is one of the prefixes left of `n` when the exclusions are taken out one after the other. */
  ghost predicate Survives(c: Cidr, n: Cidr, exclusions: seq<Cidr>)
    decreases |exclusions|, 0
  {
    if exclusions == [] then c == n
    else SurvivesLast(c, n, exclusions[..|exclusions| - 1], exclusions[|exclusions| - 1])
  }

  ghost predicate SurvivesLast(c: Cidr, n: Cidr, exclusions: seq<Cidr>, last: Cidr)
    decreases |exclusions|, 1
  {
    exists m :: Survives(m, n, exclusions) && IsLeft(c, m, last)
  }

  lemma SurvivesMore(n: Cidr, exclusions: seq<Cidr>, j: nat, pending: seq<Cidr>, next: seq<Cidr>)
    requires j < |exclusions| && Punched(pending, exclusions[j], next)
    requires forall c :: c in pending <==> Survives(c, n, exclusions[..j])
    ensures forall c :: c in next <==> Survives(c, n, exclusions[..j + 1])
  {
    hide IsLeft;
    var longer := exclusions[..j + 1];
    assert longer[..|longer| - 1] == exclusions[..j] && longer[|longer| - 1] == exclusions[j];
  }

  /** The outer loop over one included prefix. */
  method PunchAll(net: Cidr, exclusions: seq<Cidr>) returns (pending: seq<Cidr>)
    ensures forall c :: c in pending <==> Survives(c, net, exclusions)
    ensures Aligned(net) && AllAligned(Elements(exclusions)) ==>
      IsMaximalBlocks(Elements(pending), Block(net) - Covered(Elements(exclusions))) && NoDuplicates(pending)
  {
    hide Contains, Aligned, In, Punched, IsMaximalBlocks, NoDuplicates;
    pending := [net];
    WholeBlock(net);
    ghost var aligned := Aligned(net) && AllAligned(Elements(exclusions));
    for j := 0 to |exclusions|
      invariant forall c :: c in pending <==> Survives(c, net, exclusions[..j])
      invariant aligned ==> IsMaximalBlocks(Elements(pending), Block(net) - Covered(Elements(exclusions[..j])))
      invariant aligned ==> NoDuplicates(pending)
    {
      var exc := exclusions[j];
      ghost var addrs := Block(net) - Covered(Elements(exclusions[..j]));
      hide Survives;
      var next := PunchOut(pending, exc);
      SurvivesMore(net, exclusions, j, pending, next);
      if aligned {
        assert exc in Elements(exclusions);
        MaximalIsTidy(pending, addrs);
        PunchedIsMaximal(pending, exc, next, addrs);
        CoveredPush(exclusions[..j], exc);
        assert exclusions[..j + 1] == exclusions[..j] + [exc];
        assert addrs - Block(exc) == Block(net) - Covered(Elements(exclusions[..j + 1]));
      }
      pending := next;
    }
    assert exclusions[..|exclusions|] == exclusions;
  }

  lemma WholeBlock(net: Cidr)
    ensures Aligned(net) ==> IsMaximalBlocks(Elements([net]), Block(net) - Covered(Elements([])))
    ensures NoDuplicates([net])
  {
    hide Contains, Aligned, In, NetworkAddr;
    if Aligned(net) {
      if net.len > 0 {
        ParentContains(net);
        LargerBlock(Parent(net), net);
      }
      assert Elements([net]) == {net};
      assert Covered({net}) == Block(net) by {
        forall a ensures InAny(a, {net}) <==> In(a, net) {
          assert net in {net};
        }
      }
      CoverOfMaximal({net}, Block(net));
      assert Block(net) - Covered(Elements([])) == Block(net);
    }
  }

  // ---- The pipeline ----

  /** One lookup per source; any failure fails them all. */
  ghost predicate AllResolved(sources: seq<Option<seq<Entry>>>) {
    forall s :: s in sources ==> s.Some?
  }

  ghost function Flatten(sources: seq<Option<seq<Entry>>>): seq<Entry>
    requires AllResolved(sources)
  {
    if sources == [] then []
    else
      assert sources[0] in sources;
      assert AllResolved(sources[1..]) by {
        assert forall s :: s in sources[1..] ==> s in sources;
      }
      sources[0].value + Flatten(sources[1..])
  }

  lemma {:induction false} FlattenAppend(sources: seq<Option<seq<Entry>>>, s: Option<seq<Entry>>)
    requires AllResolved(sources) && s.Some?
    ensures AllResolved(sources + [s])
    ensures Flatten(sources + [s]) == Flatten(sources) + s.value
  {
    if sources == [] {
      assert sources + [s] == [s];
    } else {
      assert sources[0] in sources;
      assert forall t :: t in sources[1..] ==> t in sources;
      assert (sources + [s])[1..] == sources[1..] + [s];
      FlattenAppend(sources[1..], s);
    }
  }

  method ResolveEntries(sources: seq<Option<seq<Entry>>>) returns (r: Option<seq<Labelled>>)
    ensures r.Some? <==> AllResolved(sources)
    ensures r.Some? ==> Aggregates(Flatten(sources), r.value) && NoDuplicates(r.value)
  {
    hide Aggregates;
    var entries: seq<Entry> := [];
    for i := 0 to |sources|
      invariant AllResolved(sources[..i]) && entries == Flatten(sources[..i])
    {
      if sources[i].None? {
        return None;
      }
      FlattenAppend(sources[..i], sources[i]);
      assert sources[..i + 1] == sources[..i] + [sources[i]];
      entries := entries + sources[i].value;
    }
    assert sources[..|sources|] == sources;
    var result := DedupeAndAggregate(entries);
    return Some(result);
  }

  ghost function AllNets(result: seq<Labelled>): set<Cidr> {
    set p | p in result :: p.0
  }

  /** What the aggregated list covers is what its entries cover, and it is empty only if no entry
      parsed. */
  lemma AggregateCovers(entries: seq<Entry>, result: seq<Labelled>)
    requires Aggregates(entries, result)
    ensures Covered(AllNets(result)) == Covered(ParsedNets(entries))
    ensures result == [] <==> ParsedNets(entries) == {}
  {
    hide CollapsesTo, In, LabelOf;
    forall tag ensures Covered(NetsOf(result, tag)) == Covered(NetsLabelled(entries, tag)) {
      CollapseCovers(NetsLabelled(entries, tag), NetsOf(result, tag));
    }
    forall a ensures InAny(a, AllNets(result)) <==> InAny(a, ParsedNets(entries)) {
      if InAny(a, AllNets(result)) {
        var c :| c in AllNets(result) && In(a, c);
        var p :| p in result && p.0 == c;
        assert c in NetsOf(result, p.1);
        assert a in Covered(NetsOf(result, p.1));
        assert a in Covered(NetsLabelled(entries, p.1));
        assert InAny(a, NetsLabelled(entries, p.1));
      }
      if InAny(a, ParsedNets(entries)) {
        var c :| c in ParsedNets(entries) && In(a, c);
        LabelOfParsed(entries, c);
        var tag := LabelOf(entries, c).value;
        assert c in NetsLabelled(entries, tag);
        assert a in Covered(NetsOf(result, tag));
        var d :| d in NetsOf(result, tag) && In(a, d);
        assert d in AllNets(result);
      }
    }
    CoversNothing(AllNets(result));
    CoversNothing(ParsedNets(entries));
    if result != [] {
      assert result[0].0 in AllNets(result);
    }
  }

  lemma CoversNothing(nets: set<Cidr>)
    ensures nets == {} <==> Covered(nets) == iset{}
  {
    hide In;
    if c :| c in nets {
      NetworkSameBlock(c, c.addr);
      assert c.addr in Covered(nets);
    }
  }

  /** `c` comes out of one of the prefixes `nets` when `holes` is taken out of each. */
  ghost predicate FromOne(c: Cidr, nets: set<Cidr>, holes: iset<bv32>) {
    exists n :: n in nets && Maximal(c, Block(n) - holes)
  }

  /** Taking holes out of each prefix of a canonical list gives the maximal blocks of the whole set
      without the holes. */
  lemma PunchedPiecewise(nets: set<Cidr>, holes: iset<bv32>, left: set<Cidr>)
    requires Canonical(nets)
    requires forall c :: c in left <==> FromOne(c, nets, holes)
    ensures IsMaximalBlocks(left, Covered(nets) - holes)
  {
    hide In, Contains, Aligned, Parent;
    forall c ensures FromOne(c, nets, holes) <==> Maximal(c, Covered(nets) - holes) {
      if n :| n in nets && Maximal(c, Block(n) - holes) {
        PieceIsWhole(nets, holes, n, c);
      }
      if Maximal(c, Covered(nets) - holes) {
        var n := WithinOne(nets, c);
        ContainsIsSubset(n, c);
        MemberInside(nets, n);
        assert Maximal(c, Block(n) - holes);
      }
    }
  }

  lemma MemberInside(nets: set<Cidr>, n: Cidr)
    requires n in nets
    ensures Block(n) <= Covered(nets)
  {
    hide In;
  }

  lemma PieceIsWhole(nets: set<Cidr>, holes: iset<bv32>, n: Cidr, c: Cidr)
    requires Canonical(nets) && n in nets && Maximal(c, Block(n) - holes)
    ensures Maximal(c, Covered(nets) - holes)
  {
    hide In, NetworkAddr, Or, BlockSize;
    MemberInside(nets, n);
    if c.len > 0 && Block(Parent(c)) <= Covered(nets) - holes {
      SiblingAligned(c);
      var n' := WithinOne(nets, Parent(c));
      ContainsIsSubset(n', Parent(c));
      ParentSplits(c);
      NetworkSameBlock(c, c.addr);
      assert c.addr in Block(c);
      Nested(n, n');
      assert false;
    }
  }

  lemma PiecesApart(nets: set<Cidr>, holes: iset<bv32>, n: Cidr, n': Cidr, c: Cidr)
    requires Canonical(nets) && n in nets && n' in nets
    requires Maximal(c, Block(n) - holes) && Maximal(c, Block(n') - holes)
    ensures n == n'
  {
    hide In, Contains, Aligned, Parent;
    NetworkSameBlock(c, c.addr);
    assert c.addr in Block(c);
    Nested(n, n');
  }

  /** Where the outer loop stands: what it has put out is what the first `i` included prefixes give. */
  ghost predicate PipelineState(included: seq<Labelled>, i: nat, holes: iset<bv32>, out: seq<Labelled>)
    requires i <= |included|
  {
    && NoDuplicates(out)
    && forall tag, c :: c in NetsOf(out, tag) <==> FromOne(c, NetsOf(included[..i], tag), holes)
  }

  lemma PipelineStep(included: seq<Labelled>, i: nat, holes: iset<bv32>, out: seq<Labelled>, pending: seq<Cidr>)
    requires i < |included| && NoDuplicates(included)
    requires forall tag :: Canonical(NetsOf(included, tag))
    requires PipelineState(included, i, holes, out)
    requires IsMaximalBlocks(Elements(pending), Block(included[i].0) - holes) && NoDuplicates(pending)
    ensures PipelineState(included, i + 1, holes, out + Tagged(pending, included[i].1))
  {
    hide In, Canonical, Maximal, Contains;
    var (net, tag) := included[i];
    assert included[..i + 1] == included[..i] + [(net, tag)];
    forall c | c in NetsOf(out, tag) && c in pending ensures false {
      var n :| n in NetsOf(included[..i], tag) && Maximal(c, Block(n) - holes);
      assert (n, tag) in included[..i];
      assert (n, tag) in included && (net, tag) in included;
      assert c in Elements(pending);
      PiecesApart(NetsOf(included, tag), holes, n, net, c);
    }
    DistinctTagged(out, pending, tag);
    var longer := out + Tagged(pending, tag);
    forall other, c ensures c in NetsOf(longer, other) <==> FromOne(c, NetsOf(included[..i + 1], other), holes) {
      NetsOfTagged(out, pending, tag, other);
      NetsOfPush(included[..i], (net, tag), other);
      assert FromOne(c, {net}, holes) <==> Maximal(c, Block(net) - holes);
      assert c in Elements(pending) <==> Maximal(c, Block(net) - holes);
    }
  }

  lemma NetsOfPush(result: seq<Labelled>, p: Labelled, tag: string)
    ensures NetsOf(result + [p], tag) == NetsOf(result, tag) + (if p.1 == tag then {p.0} else {})
  {
    forall c ensures c in NetsOf(result + [p], tag) <==> c in NetsOf(result, tag) + (if p.1 == tag then {p.0} else {}) {
      assert c in NetsOf(result + [p], tag) <==> (c, tag) in result + [p];
      assert c in NetsOf(result, tag) <==> (c, tag) in result;
    }
  }

  /** The bypass of a set of entries: per label, the maximal blocks of what the label includes without
      anything excluded. */
  ghost predicate BypassOf(included: seq<Entry>, excluded: seq<Entry>, out: seq<Labelled>) {
    && NoDuplicates(out)
    && forall tag ::
      IsMaximalBlocks(NetsOf(out, tag), Covered(NetsLabelled(included, tag)) - Covered(ParsedNets(excluded)))
  }

  /** Under each label, every prefix with host bits set is subsumed by a larger aligned one. */
  ghost predicate TameByLabel(entries: seq<Entry>) {
    forall tag :: Tame(NetsLabelled(entries, tag))
  }

  lemma AggregateCanonical(entries: seq<Entry>, result: seq<Labelled>)
    requires Aggregates(entries, result) && TameByLabel(entries)
    ensures forall tag ::
      Canonical(NetsOf(result, tag)) && Covered(NetsOf(result, tag)) == Covered(NetsLabelled(entries, tag))
  {
    hide Tame, CollapsesTo, NetsLabelled, NetsOf, Covered, Canonical;
    forall tag
      ensures Canonical(NetsOf(result, tag)) && Covered(NetsOf(result, tag)) == Covered(NetsLabelled(entries, tag))
    {
      TameCollapse(NetsLabelled(entries, tag), NetsOf(result, tag));
    }
  }

  /** Where an aligned entry subsumes another, whatever their labels, a prefix of the result subsumes it. */
  lemma StillSubsumed(entries: seq<Entry>, result: seq<Labelled>, c: Cidr)
    requires Aggregates(entries, result) && Subsumed(c, ParsedNets(entries))
    ensures Subsumed(c, AllNets(result))
  {
    hide In, NetworkAddr, Canonical, LabelOf;
    var m :| m in ParsedNets(entries) && m.len < c.len && Contains(m, c);
    ContainsBlock(m, c, c.addr);
    LabelOfParsed(entries, m);
    var tag := LabelOf(entries, m).value;
    assert m in AlignedIn(NetsLabelled(entries, tag));
    assert CollapsesTo(NetsLabelled(entries, tag), NetsOf(result, tag));
    var out := AlignedIn(NetsOf(result, tag));
    MemberInside(AlignedIn(NetsLabelled(entries, tag)), m);
    var n := InCanonical(out, m);
    ContainsTrans(n, m, c);
    assert (n, tag) in result;
    assert n in AllNets(result);
  }

  lemma InCanonical(nets: set<Cidr>, m: Cidr) returns (n: Cidr)
    requires Canonical(nets) && Aligned(m) && Block(m) <= Covered(nets)
    ensures n in nets && Contains(n, m)
  {
    hide Aligned, Contains, In;
    n := WithinOne(nets, m);
  }

  lemma AggregateTame(entries: seq<Entry>, result: seq<Labelled>)
    requires Aggregates(entries, result) && Tame(ParsedNets(entries))
    ensures Tame(AllNets(result))
  {
    hide Aligned, Subsumed, Canonical, Covered, LabelOf;
    forall c | c in AllNets(result) && !Aligned(c) ensures Subsumed(c, AllNets(result)) {
      var p :| p in result && p.0 == c;
      assert c in UnalignedIn(NetsOf(result, p.1));
      assert CollapsesTo(NetsLabelled(entries, p.1), NetsOf(result, p.1));
      assert c in NetsLabelled(entries, p.1);
      StillSubsumed(entries, result, c);
    }
  }

  lemma PipelineStart(included: seq<Labelled>, holes: iset<bv32>)
    ensures PipelineState(included, 0, holes, [])
  {}

  lemma PipelineEnd(included: seq<Labelled>, holes: iset<bv32>, out: seq<Labelled>, tag: string)
    requires PipelineState(included, |included|, holes, out)
    requires Canonical(NetsOf(included, tag))
    ensures IsMaximalBlocks(NetsOf(out, tag), Covered(NetsOf(included, tag)) - holes)
  {
    hide In, Canonical, Maximal, NetsOf, FromOne;
    assert included[..|included|] == included;
    PunchedPiecewise(NetsOf(included, tag), holes, NetsOf(out, tag));
  }

  lemma BypassDone(entries: seq<Entry>, excluded: seq<Entry>, included: seq<Labelled>, holes: iset<bv32>,
                   out: seq<Labelled>)
    requires Aggregates(entries, included) && TameByLabel(entries)
    requires holes == Covered(ParsedNets(excluded))
    requires PipelineState(included, |included|, holes, out)
    ensures BypassOf(entries, excluded, out)
  {
    hide Aggregates, TameByLabel, Covered, IsMaximalBlocks, ParsedNets, NetsOf, Canonical, FromOne;
    AggregateCanonical(entries, included);
    forall tag ensures IsMaximalBlocks(NetsOf(out, tag), Covered(NetsLabelled(entries, tag)) - holes) {
      PipelineEnd(included, holes, out, tag);
    }
  }

  method Exclusions(excluded: seq<Labelled>) returns (nets: seq<Cidr>)
    ensures Sorted(nets) && CollapsesTo(AllNets(excluded), Elements(nets))
    ensures Covered(Elements(nets)) == Covered(AllNets(excluded))
    ensures Tame(AllNets(excluded)) ==> AllAligned(Elements(nets))
  {
    hide Covered, Aligned, CollapsesTo, Tame;
    nets := seq(|excluded|, k requires 0 <= k < |excluded| => excluded[k].0);
    ghost var all := Elements(nets);
    assert all == AllNets(excluded) by {
      forall c | c in AllNets(excluded) ensures c in nets {
        var k :| 0 <= k < |excluded| && excluded[k].0 == c;
        assert nets[k] == c;
      }
    }
    nets := Collapse(nets);
    CollapseCovers(all, Elements(nets));
    if Tame(all) {
      TameCollapse(all, Elements(nets));
    }
  }

  /** What the call works with: the aggregated sources and exclusions, and the prefixes it takes out. */
  datatype Parts = Parts(included: seq<Labelled>, excluded: seq<Labelled>, holes: seq<Cidr>)

  /** For whatever entries: under each label, what survives of each of its aggregated prefixes when the
      collapsed exclusions are taken out of it one after the other. */
  ghost predicate ComesOf(sources: seq<Entry>, exclude: seq<Entry>, parts: Parts, out: seq<Labelled>) {
    && Aggregates(sources, parts.included) && Aggregates(exclude, parts.excluded)
    && Sorted(parts.holes) && CollapsesTo(AllNets(parts.excluded), Elements(parts.holes))
    && forall tag, c :: c in NetsOf(out, tag) <==> SurvivesOf(c, NetsOf(parts.included, tag), parts.holes)
  }

  ghost predicate SurvivesOf(c: Cidr, nets: set<Cidr>, exclusions: seq<Cidr>) {
    exists n :: n in nets && Survives(c, n, exclusions)
  }

  ghost predicate PunchedSoFar(included: seq<Labelled>, i: nat, exclusions: seq<Cidr>, out: seq<Labelled>)
    requires i <= |included|
  {
    forall tag, c :: c in NetsOf(out, tag) <==> SurvivesOf(c, NetsOf(included[..i], tag), exclusions)
  }

  lemma NothingPunched(included: seq<Labelled>, exclusions: seq<Cidr>)
    ensures PunchedSoFar(included, 0, exclusions, [])
  {
    hide Survives;
    assert included[..0] == [];
  }

  lemma PunchedMore(included: seq<Labelled>, i: nat, exclusions: seq<Cidr>, out: seq<Labelled>, pending: seq<Cidr>)
    requires i < |included| && PunchedSoFar(included, i, exclusions, out)
    requires forall c :: c in pending <==> Survives(c, included[i].0, exclusions)
    ensures PunchedSoFar(included, i + 1, exclusions, out + Tagged(pending, included[i].1))
  {
    hide Survives, NetsOf;
    var (net, tag) := included[i];
    assert included[..i + 1] == included[..i] + [(net, tag)];
    forall other, c
      ensures c in NetsOf(out + Tagged(pending, tag), other) <==>
        SurvivesOf(c, NetsOf(included[..i + 1], other), exclusions)
    {
      NetsOfTagged(out, pending, tag, other);
      NetsOfPush(included[..i], (net, tag), other);
      assert c in pending <==> c in Elements(pending);
    }
  }

  lemma AllPunched(sources: seq<Entry>, exclude: seq<Entry>, parts: Parts, out: seq<Labelled>, sorted: seq<Labelled>)
    requires Aggregates(sources, parts.included) && Aggregates(exclude, parts.excluded)
    requires Sorted(parts.holes) && CollapsesTo(AllNets(parts.excluded), Elements(parts.holes))
    requires PunchedSoFar(parts.included, |parts.included|, parts.holes, out)
    requires forall tag :: NetsOf(sorted, tag) == NetsOf(out, tag)
    ensures ComesOf(sources, exclude, parts, sorted)
  {
    hide Aggregates, NetsOf, SurvivesOf, Sorted, CollapsesTo;
    assert parts.included[..|parts.included|] == parts.included;
  }

  /** The result is in the order of its texts, prefixes as `format` writes them. */
  method ResolveInner(sources: seq<Option<seq<Entry>>>, exclude: seq<Option<seq<Entry>>>, format: Cidr -> string)
    returns (r: Result<seq<Labelled>>, ghost parts: Parts)
    ensures r == Err(NothingIncluded) <==> AllResolved(sources) && ParsedNets(Flatten(sources)) == {}
    ensures r.Ok? <==> AllResolved(sources) && AllResolved(exclude) && ParsedNets(Flatten(sources)) != {}
    ensures r.Ok? && TameByLabel(Flatten(sources)) && Tame(ParsedNets(Flatten(exclude))) ==>
      BypassOf(Flatten(sources), Flatten(exclude), r.value)
    ensures r.Ok? ==> ComesOf(Flatten(sources), Flatten(exclude), parts, r.value)
    ensures r.Ok? ==> OrderedBy(r.value, (p, q) => TextAtMost(format, p, q))
  {
    hide Aggregates, AllAligned, Maximal, IsMaximalBlocks, PipelineState, Covered, ParsedNets, NetsOf, Canonical,
      BypassOf;
    hide AllResolved, NoDuplicates, Tame, TameByLabel, OrderedBy, TotalOrder, ComesOf, PunchedSoFar;
    parts := Parts([], [], []);
    var resolved := ResolveEntries(sources);
    if resolved.None? {
      return Err(SourceFailed), parts;
    }
    var included := resolved.value;
    AggregateCovers(Flatten(sources), included);
    if included == [] {
      return Err(NothingIncluded), parts;
    }
    var excluded := ResolveEntries(exclude);
    if excluded.None? {
      return Err(SourceFailed), parts;
    }
    var excludeNets := Exclusions(excluded.value);
    parts := Parts(included, excluded.value, excludeNets);
    AggregateCovers(Flatten(exclude), excluded.value);
    ghost var tame := TameByLabel(Flatten(sources)) && Tame(ParsedNets(Flatten(exclude)));
    ghost var holes := Covered(Elements(excludeNets));
    if tame {
      AggregateCanonical(Flatten(sources), included);
      AggregateTame(Flatten(exclude), excluded.value);
      PipelineStart(included, holes);
    }
    var out := [];
    NothingPunched(included, excludeNets);
    for i := 0 to |included|
      invariant PunchedSoFar(included, i, excludeNets, out)
      invariant tame ==> PipelineState(included, i, holes, out)
    {
      var (net, tag) := included[i];
      var pending := PunchAll(net, excludeNets);
      if tame {
        MemberAligned(included, i);
        PipelineStep(included, i, holes, out, pending);
      }
      PunchedMore(included, i, excludeNets, out, pending);
      out := PushAll(out, pending, tag);
    }
    if tame {
      BypassDone(Flatten(sources), Flatten(exclude), included, holes, out);
    }
    TextsAreOrdered(format);
    var texts := SortedBy(out, (p, q) => TextAtMost(format, p, q));
    if BypassOf(Flatten(sources), Flatten(exclude), out) {
      SortedBypass(Flatten(sources), Flatten(exclude), out, texts);
    }
    SortingKeeps(out, texts);
    AllPunched(Flatten(sources), Flatten(exclude), parts, out, texts);
    return Ok(texts), parts;
  }

  lemma SortedBypass(included: seq<Entry>, excluded: seq<Entry>, out: seq<Labelled>, sorted: seq<Labelled>)
    requires BypassOf(included, excluded, out) && multiset(out) == multiset(sorted)
    ensures BypassOf(included, excluded, sorted)
  {
    hide NoDuplicates, NetsOf, IsMaximalBlocks, Covered, ParsedNets, NetsLabelled;
    SortingKeeps(out, sorted);
  }

  lemma MemberAligned(included: seq<Labelled>, i: nat)
    requires i < |included| && Canonical(NetsOf(included, included[i].1))
    ensures Aligned(included[i].0)
  {
    hide Aligned;
    assert included[i].0 in NetsOf(included, included[i].1);
  }

  // ---- What the result means ----

  /** Under each label, exactly the addresses it includes and nothing excludes, in the fewest prefixes
      that can say so. */
  lemma BypassMeaning(included: seq<Entry>, excluded: seq<Entry>, out: seq<Labelled>, tag: string, others: set<Cidr>)
    requires BypassOf(included, excluded, out)
    ensures Covered(NetsOf(out, tag)) == Covered(NetsLabelled(included, tag)) - Covered(ParsedNets(excluded))
    ensures Covered(others) == Covered(NetsOf(out, tag)) ==> |NetsOf(out, tag)| <= |others|
  {
    hide Maximal, IsMaximalBlocks, Covered, Canonical, ParsedNets, NetsOf;
    var addrs := Covered(NetsLabelled(included, tag)) - Covered(ParsedNets(excluded));
    MaximalIsCanonical(NetsOf(out, tag), addrs);
    if Covered(others) == Covered(NetsOf(out, tag)) {
      CanonicalIsFewest(NetsOf(out, tag), others);
    }
  }

  lemma SameCounts(xs: seq<Labelled>, ys: seq<Labelled>)
    requires NoDuplicates(xs) && NoDuplicates(ys)
    requires forall p :: p in xs <==> p in ys
    ensures multiset(xs) == multiset(ys)
  {
    forall p ensures multiset(xs)[p] == multiset(ys)[p] {
      CountOfDistinct(xs, p);
      CountOfDistinct(ys, p);
    }
  }

  /** Only the address sets matter: exclusions in another order, another split or another spelling
      give the same prefixes. */
  lemma BypassIgnoresOrder(included: seq<Entry>, excluded: seq<Entry>, out: seq<Labelled>,
                           excluded': seq<Entry>, out': seq<Labelled>)
    requires BypassOf(included, excluded, out) && BypassOf(included, excluded', out')
    requires Covered(ParsedNets(excluded)) == Covered(ParsedNets(excluded'))
    ensures multiset(out) == multiset(out')
  {
    hide Maximal, Covered, ParsedNets;
    forall p: Labelled ensures p in out <==> p in out' {
      assert p in out <==> p.0 in NetsOf(out, p.1);
      assert p in out' <==> p.0 in NetsOf(out', p.1);
    }
    SameCounts(out, out');
  }

  // ---- Host bits ----

  /** The prefixes `left` of `n` say exactly `n` without `exc`. */
  ghost predicate PunchesRight(n: Cidr, exc: Cidr) {
    forall a :: (exists c :: IsLeft(c, n, exc) && In(a, c)) <==> In(a, n) && !In(a, exc)
  }

  /** An exclusion is honoured within every aligned prefix exactly when it is aligned itself: with host
      bits set, it fails to remove the prefixes inside it. */
  lemma ExclusionNeedsAlignment(exc: Cidr)
    ensures (forall n :: Aligned(n) ==> PunchesRight(n, exc)) <==> Aligned(exc)
  {
    hide In, NetworkAddr;
    if Aligned(exc) {
      forall n | Aligned(n) ensures PunchesRight(n, exc) {
        AlignedPunchesRight(n, exc);
      }
    } else {
      LongestIsAligned(exc);
      NetworkSameBlock(exc, exc.addr);
      var n := Lower(Network(exc));
      LowerIsHalf(Network(exc));
      NetworkSameBlock(n, n.addr);
      ParentContains(n);
      ContainsBlock(Network(exc), n, n.addr);
      NetworkSameBlock(exc, n.addr);
      NotContains(exc, n);
      assert IsLeft(n, n, exc) && In(n.addr, n);
      assert !PunchesRight(n, exc);
    }
  }

  /** 10.0.0.1/24 is not taken out of 10.0.0.0/25, which lies inside it. */
  lemma HostBitsExclusionExample()
    ensures !PunchesRight(Cidr(0x0A00_0000, 25), Cidr(0x0A00_0001, 24))
  {
    var n, exc := Cidr(0x0A00_0000, 25), Cidr(0x0A00_0001, 24);
    assert IsLeft(n, n, exc) && In(0x0A00_0000, n) && In(0x0A00_0000, exc);
  }

  /** An included prefix gets every aligned exclusion out exactly when it is aligned itself. */
  lemma InclusionNeedsAlignment(n: Cidr)
    ensures (forall exc :: Aligned(exc) ==> PunchesRight(n, exc)) <==> Aligned(n)
  {
    hide In, NetworkAddr;
    if Aligned(n) {
      forall exc | Aligned(exc) ensures PunchesRight(n, exc) {
        AlignedPunchesRight(n, exc);
      }
    } else {
      LongestIsAligned(n);
      NetworkSameBlock(n, n.addr);
      var exc := Lower(Network(n));
      LowerIsHalf(Network(n));
      NetworkSameBlock(exc, exc.addr);
      ParentContains(exc);
      ContainsBlock(Network(n), exc, exc.addr);
      NetworkSameBlock(n, exc.addr);
      NotContains(n, exc);
      assert IsLeft(n, n, exc) && In(exc.addr, n);
      assert !PunchesRight(n, exc);
    }
  }

  lemma LongestIsAligned(c: Cidr)
    ensures c.len == 32 ==> Aligned(c)
  {
    hide And, Ones;
    AllOnesKeep(c.addr);
  }

  lemma NotContains(c: Cidr, d: Cidr)
    requires !Aligned(c)
    ensures !Contains(c, d)
  {
    hide NetworkAddr;
    if Contains(c, d) {
      ContainsBlock(c, d, d.addr);
    }
  }

  lemma AlignedPunchesRight(n: Cidr, exc: Cidr)
    requires Aligned(n) && Aligned(exc)
    ensures PunchesRight(n, exc)
  {
    hide In, Contains, Aligned, Parent;
    forall a ensures (exists c :: IsLeft(c, n, exc) && In(a, c)) <==> In(a, n) && !In(a, exc) {
      if c :| IsLeft(c, n, exc) && In(a, c) {
        LeftInside(c, n, exc);
        assert a in Block(c);
      }
      if In(a, n) && !In(a, exc) {
        LeftHolds(n, exc, a);
      }
    }
  }

  lemma LeftHolds(n: Cidr, exc: Cidr, a: bv32)
    requires In(a, n) && !In(a, exc)
    ensures exists c :: IsLeft(c, n, exc) && In(a, c)
  {
    hide In, Contains, Aligned, Parent;
    if Contains(exc, n) {
      ContainsBlock(exc, n, a);
      assert false;
    } else if Contains(n, exc) {
      SingleAddress(a);
      assert a in Block(n) - Block(exc);
      var c := Climb(Cidr(a, 32), Block(n) - Block(exc));
      assert a in Block(Cidr(a, 32));
      ContainsBlock(c, Cidr(a, 32), a);
      assert IsLeft(c, n, exc) && In(a, c);
    } else {
      assert IsLeft(n, n, exc) && In(a, n);
    }
  }
}
