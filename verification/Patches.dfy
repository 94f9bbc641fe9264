/** The patch documents of a slipmesh file, and the ones that make up one host's patch file. */
module Patches {
  import opened Json
  import opened Merging
  import opened Wrappers

  /** One `kind: patch` document: whom it is aimed at, and what it says. */
  datatype Document = Document(including: Option<seq<string>>, excluding: Option<seq<string>>, value: Value)

  datatype SlipmeshFile = SlipmeshFile(hosts: seq<string>, patches: seq<Document>)

  /** What Talos keys a document by. */
  datatype Identity = Identity(apiVersion: Option<string>, kind: Option<string>, name: Option<string>)

  datatype HostDocument = HostDocument(identity: Identity, value: Value)

  function IdentityOf(value: Value): Identity {
    Identity(TextAt(value, "apiVersion"), TextAt(value, "kind"), TextAt(value, "name"))
  }

  predicate Reaches(d: Document, host: string) {
    && (d.including.Some? ==> host in d.including.value)
    && !(d.excluding.Some? && host in d.excluding.value)
  }

  /** A parsed document is a mapping without repeated keys. */
  ghost predicate Parsed(docs: seq<Document>) {
    forall d :: d in docs ==> d.value.Mapping? && WellFormed(d.value)
  }

  // ---- Choosing documents ----

  datatype Choice = ToHost(host: string) | Default | Included | Of(identity: Identity)

  predicate Chooses(c: Choice, d: Document) {
    match c
    case ToHost(host) => Reaches(d, host)
    case Default => d.including.None?
    case Included => d.including.Some?
    case Of(identity) => IdentityOf(d.value) == identity
  }

  /** The documents a choice takes, in order. */
  function Chosen(docs: seq<Document>, c: Choice): seq<Document> {
    if docs == [] then []
    else
      var last := docs[|docs| - 1];
      Chosen(docs[..|docs| - 1], c) + (if Chooses(c, last) then [last] else [])
  }

  method Choose(docs: seq<Document>, c: Choice) returns (out: seq<Document>)
    ensures out == Chosen(docs, c)
  {
    out := [];
    for i := 0 to |docs|
      invariant out == Chosen(docs[..i], c)
    {
      assert docs[..i + 1][..i] == docs[..i];
      if Chooses(c, docs[i]) {
        out := out + [docs[i]];
      }
    }
    assert docs[..|docs|] == docs;
  }

  /** Defaults first, then those that name hosts, each in file order. */
  function Specific(reaching: seq<Document>): seq<Document> {
    Chosen(reaching, Default) + Chosen(reaching, Included)
  }

  /** The documents of one identity, the least specific first. */
  function Sources(reaching: seq<Document>, identity: Identity): seq<Document> {
    Chosen(Specific(reaching), Of(identity))
  }

  /** The identities there are, in order of first appearance. */
  function Identities(docs: seq<Document>): seq<Identity> {
    if docs == [] then []
    else
      var earlier := Identities(docs[..|docs| - 1]);
      var identity := IdentityOf(docs[|docs| - 1].value);
      earlier + (if identity in earlier then [] else [identity])
  }

  /** Later documents merged over earlier ones; the first is taken as it is. */
  function Folded(docs: seq<Document>): Value
    requires docs != []
  {
    if |docs| == 1 then docs[0].value
    else MergedDocument(Folded(docs[..|docs| - 1]), docs[|docs| - 1].value)
  }

  lemma {:induction false} ChosenCount(docs: seq<Document>, c: Choice, d: Document)
    ensures multiset(Chosen(docs, c))[d] == if Chooses(c, d) then multiset(docs)[d] else 0
  {
    if docs == [] {
    } else {
      hide Chooses;
      ChosenCount(docs[..|docs| - 1], c, d);
      assert docs == docs[..|docs| - 1] + [docs[|docs| - 1]];
    }
  }

  lemma ChosenIn(docs: seq<Document>, c: Choice, d: Document)
    ensures d in Chosen(docs, c) <==> d in docs && Chooses(c, d)
  {
    hide *;
    ChosenCount(docs, c, d);
    assert d in docs <==> multiset(docs)[d] > 0;
    assert d in Chosen(docs, c) <==> multiset(Chosen(docs, c))[d] > 0;
  }

  /** The group of an identity holds every reaching document of it, as often as it is there. */
  lemma SourcesCount(reaching: seq<Document>, identity: Identity, d: Document)
    ensures multiset(Sources(reaching, identity))[d] ==
      if IdentityOf(d.value) == identity then multiset(reaching)[d] else 0
  {
    hide Chosen;
    ChosenCount(Specific(reaching), Of(identity), d);
    ChosenCount(reaching, Default, d);
    ChosenCount(reaching, Included, d);
  }

  lemma SourcesIn(reaching: seq<Document>, identity: Identity, d: Document)
    ensures d in Sources(reaching, identity) <==> d in reaching && IdentityOf(d.value) == identity
  {
    hide *;
    SourcesCount(reaching, identity, d);
    assert d in reaching <==> multiset(reaching)[d] > 0;
    assert d in Sources(reaching, identity) <==> multiset(Sources(reaching, identity))[d] > 0;
  }

  // ---- A host's documents ----

  function Listed(out: seq<HostDocument>): seq<Identity> {
    seq(|out|, i requires 0 <= i < |out| => out[i].identity)
  }

  /** One document per identity that reaches the host, each with its group folded into it. */
  ghost predicate IsPatchesFor(reaching: seq<Document>, out: seq<HostDocument>) {
    && Listed(out) == Identities(reaching)
    && forall i :: 0 <= i < |out| ==> IsGroup(reaching, out[i])
  }

  ghost predicate IsGroup(reaching: seq<Document>, d: HostDocument) {
    var sources := Sources(reaching, d.identity);
    sources != [] && d.value == Folded(sources)
  }

  method PatchesFor(file: SlipmeshFile, host: string) returns (out: Option<seq<HostDocument>>)
    ensures out.None? <==> host !in file.hosts
    ensures out.Some? ==> IsPatchesFor(Chosen(file.patches, ToHost(host)), out.value)
  {
    hide Chosen, Identities, IsGroup, Folded;
    if host !in file.hosts {
      return None;
    }
    var reaching := Choose(file.patches, ToHost(host));
    var identities := DistinctIdentities(reaching);
    var documents: seq<HostDocument> := [];
    for i := 0 to |identities|
      invariant |documents| == i
      invariant forall j :: 0 <= j < i ==> documents[j].identity == identities[j] && IsGroup(reaching, documents[j])
    {
      var defaults := Choose(reaching, Default);
      var included := Choose(reaching, Included);
      var sources := Choose(defaults + included, Of(identities[i]));
      IdentityHasSources(reaching, identities[i]);
      var document := FoldDocuments(sources);
      GroupOf(reaching, identities[i]);
      documents := documents + [HostDocument(identities[i], document)];
    }
    assert Listed(documents) == identities;
    return Some(documents);
  }

  lemma GroupOf(reaching: seq<Document>, identity: Identity)
    requires Sources(reaching, identity) != []
    ensures IsGroup(reaching, HostDocument(identity, Folded(Sources(reaching, identity))))
  {}

  method DistinctIdentities(docs: seq<Document>) returns (out: seq<Identity>)
    ensures out == Identities(docs)
  {
    out := [];
    for i := 0 to |docs|
      invariant out == Identities(docs[..i])
    {
      assert docs[..i + 1][..i] == docs[..i];
      var identity := IdentityOf(docs[i].value);
      if identity !in out {
        out := out + [identity];
      }
    }
    assert docs[..|docs|] == docs;
  }

  method FoldDocuments(sources: seq<Document>) returns (document: Value)
    requires sources != []
    ensures document == Folded(sources)
  {
    document := sources[0].value;
    for i := 1 to |sources|
      invariant document == Folded(sources[..i])
    {
      assert sources[..i + 1][..i] == sources[..i];
      document := MergeDocument(document, sources[i].value);
    }
    assert sources[..|sources|] == sources;
  }

  lemma IdentityHasSources(reaching: seq<Document>, identity: Identity)
    requires identity in Identities(reaching)
    ensures Sources(reaching, identity) != []
  {
    hide *;
    var k := FirstAppearance(reaching, identity);
    SourcesIn(reaching, identity, reaching[k]);
  }

  /** Where an identity first appears. */
  lemma {:induction false} FirstAppearance(docs: seq<Document>, identity: Identity) returns (k: nat)
    requires identity in Identities(docs)
    ensures k < |docs| && IdentityOf(docs[k].value) == identity
    ensures forall j :: 0 <= j < k ==> IdentityOf(docs[j].value) != identity
    ensures identity !in Identities(docs[..k])
  {
    hide IdentityOf;
    var front := docs[..|docs| - 1];
    if identity in Identities(front) {
      k := FirstAppearance(front, identity);
      assert front[..k] == docs[..k];
    } else {
      k := |docs| - 1;
      forall j | 0 <= j < k ensures IdentityOf(docs[j].value) != identity {
        IdentitiesHave(front, j);
      }
    }
  }

  lemma {:induction false} IdentitiesHave(docs: seq<Document>, k: nat)
    requires k < |docs|
    ensures IdentityOf(docs[k].value) in Identities(docs)
  {
    hide IdentityOf;
    if k == |docs| - 1 {
    } else {
      IdentitiesHave(docs[..|docs| - 1], k);
    }
  }

  ghost predicate AppearsBefore(docs: seq<Document>, a: Identity, b: Identity) {
    exists k :: 0 <= k < |docs| && IdentityOf(docs[k].value) == a
      && forall m :: 0 <= m <= k ==> IdentityOf(docs[m].value) != b
  }

  lemma {:induction false} ListedInOrder(docs: seq<Document>, i: nat, j: nat)
    requires i < j < |Identities(docs)|
    ensures Identities(docs)[i] != Identities(docs)[j]
    ensures AppearsBefore(docs, Identities(docs)[i], Identities(docs)[j])
  {
    hide IdentityOf, AppearsBefore;
    var front, ids := docs[..|docs| - 1], Identities(docs);
    if j < |Identities(front)| {
      ListedInOrder(front, i, j);
      AppearsStill(docs, ids[i], ids[j]);
    } else {
      AppearsLast(docs, ids[i]);
    }
  }

  lemma AppearsStill(docs: seq<Document>, a: Identity, b: Identity)
    requires docs != [] && AppearsBefore(docs[..|docs| - 1], a, b)
    ensures AppearsBefore(docs, a, b)
  {
    hide IdentityOf;
    var front := docs[..|docs| - 1];
    var k :| 0 <= k < |front| && IdentityOf(front[k].value) == a
      && forall m :: 0 <= m <= k ==> IdentityOf(front[m].value) != b;
    assert IdentityOf(docs[k].value) == a;
  }

  lemma AppearsLast(docs: seq<Document>, a: Identity)
    requires docs != [] && a in Identities(docs[..|docs| - 1])
    requires IdentityOf(docs[|docs| - 1].value) !in Identities(docs[..|docs| - 1])
    ensures AppearsBefore(docs, a, IdentityOf(docs[|docs| - 1].value))
  {
    hide IdentityOf, Identities;
    var front := docs[..|docs| - 1];
    var k := FirstAppearance(front, a);
    assert IdentityOf(docs[k].value) == a;
    forall m | 0 <= m <= k ensures IdentityOf(docs[m].value) != IdentityOf(docs[|docs| - 1].value) {
      IdentitiesHave(front, m);
    }
  }

  /** No identity is listed twice, every document's is listed, and they are listed in the order in which
      they first appear. */
  lemma IdentitiesInOrder(docs: seq<Document>)
    ensures forall identity :: identity in Identities(docs) <==>
      exists k :: 0 <= k < |docs| && IdentityOf(docs[k].value) == identity
    ensures forall i, j :: 0 <= i < j < |Identities(docs)| ==>
      Identities(docs)[i] != Identities(docs)[j] && AppearsBefore(docs, Identities(docs)[i], Identities(docs)[j])
  {
    hide *;
    forall k | 0 <= k < |docs| ensures IdentityOf(docs[k].value) in Identities(docs) {
      IdentitiesHave(docs, k);
    }
    forall identity | identity in Identities(docs)
      ensures exists k :: 0 <= k < |docs| && IdentityOf(docs[k].value) == identity
    {
      var k := FirstAppearance(docs, identity);
    }
    var ids := Identities(docs);
    forall i, j | 0 <= i < j < |ids| ensures ids[i] != ids[j] && AppearsBefore(docs, ids[i], ids[j]) {
      ListedInOrder(docs, i, j);
    }
  }

  // ---- Every reaching document is in one group ----

  function AllSources(reaching: seq<Document>, identities: seq<Identity>): seq<Document> {
    if identities == [] then []
    else AllSources(reaching, identities[..|identities| - 1]) + Sources(reaching, identities[|identities| - 1])
  }

  lemma {:induction false} AllSourcesCount(reaching: seq<Document>, identities: seq<Identity>, d: Document)
    requires forall i, j :: 0 <= i < j < |identities| ==> identities[i] != identities[j]
    ensures multiset(AllSources(reaching, identities))[d] ==
      if IdentityOf(d.value) in identities then multiset(reaching)[d] else 0
  {
    hide Sources, IdentityOf;
    if identities == [] {
    } else {
      var n := |identities| - 1;
      AllSourcesCount(reaching, identities[..n], d);
      SourcesCount(reaching, identities[n], d);
      assert identities == identities[..n] + [identities[n]];
    }
  }

  /** The groups put together hold exactly the documents that reach the host: none is dropped, none is
      folded in twice. */
  lemma GroupsPartition(file: SlipmeshFile, host: string)
    ensures var reaching := Chosen(file.patches, ToHost(host));
      multiset(AllSources(reaching, Identities(reaching))) == multiset(reaching)
  {
    hide *;
    var reaching := Chosen(file.patches, ToHost(host));
    IdentitiesInOrder(reaching);
    forall d ensures multiset(AllSources(reaching, Identities(reaching)))[d] == multiset(reaching)[d] {
      AllSourcesCount(reaching, Identities(reaching), d);
      if d in multiset(reaching) {
        var k :| 0 <= k < |reaching| && reaching[k] == d;
        IdentitiesHave(reaching, k);
      }
    }
  }

  // ---- What a group's content depends on ----

  lemma {:induction false} ChosenConcat(xs: seq<Document>, ys: seq<Document>, c: Choice)
    ensures Chosen(xs + ys, c) == Chosen(xs, c) + Chosen(ys, c)
  {
    hide Chooses;
    if ys == [] {
      assert xs + ys == xs;
    } else {
      assert (xs + ys)[..|xs + ys| - 1] == xs + ys[..|ys| - 1];
      ChosenConcat(xs, ys[..|ys| - 1], c);
    }
  }

  lemma {:induction false} ChoicesCommute(docs: seq<Document>, a: Choice, b: Choice)
    ensures Chosen(Chosen(docs, a), b) == Chosen(Chosen(docs, b), a)
  {
    hide Chooses;
    if docs == [] {
    } else {
      var front, last := docs[..|docs| - 1], docs[|docs| - 1];
      ChoicesCommute(front, a, b);
      ChosenConcat(Chosen(front, a), if Chooses(a, last) then [last] else [], b);
      ChosenConcat(Chosen(front, b), if Chooses(b, last) then [last] else [], a);
      ChosenOne(last, a);
      ChosenOne(last, b);
    }
  }

  lemma ChosenOne(d: Document, c: Choice)
    ensures Chosen([d], c) == if Chooses(c, d) then [d] else []
  {
    assert [d][..0] == [];
  }

  /** However the default documents and the documents that name hosts interleave in two files, if the
      defaults are the same and in the same order, and those that name hosts too, every group is the
      same. */
  lemma InterleavingIsIrrelevant(here: seq<Document>, there: seq<Document>, host: string, identity: Identity)
    requires Chosen(here, Default) == Chosen(there, Default)
    requires Chosen(here, Included) == Chosen(there, Included)
    ensures Sources(Chosen(here, ToHost(host)), identity) == Sources(Chosen(there, ToHost(host)), identity)
  {
    hide Chosen;
    ChoicesCommute(here, ToHost(host), Default);
    ChoicesCommute(here, ToHost(host), Included);
    ChoicesCommute(there, ToHost(host), Default);
    ChoicesCommute(there, ToHost(host), Included);
  }

  ghost predicate NoDeletions(docs: seq<Document>) {
    forall d :: d in docs ==> !IsDeletion(d.value)
  }

  function Meanings(docs: seq<Document>): seq<Json> {
    seq(|docs|, i requires 0 <= i < |docs| => Abs(docs[i].value))
  }

  lemma {:induction false} FoldedIsWellFormed(docs: seq<Document>)
    requires docs != [] && Parsed(docs)
    ensures WellFormed(Folded(docs)) && Folded(docs).Mapping?
  {
    hide WellFormed, MergedDocument, Merged;
    if |docs| == 1 {
    } else {
      var front := docs[..|docs| - 1];
      FoldedIsWellFormed(front);
      MergedDocumentIsWellFormed(Folded(front), docs[|docs| - 1].value);
      MergedDocumentIsMapping(Folded(front), docs[|docs| - 1].value);
    }
  }

  lemma MergedDocumentIsMapping(base: Value, overlay: Value)
    ensures overlay.Mapping? ==> MergedDocument(base, overlay).Mapping?
  {}

  /** Folding a group applies its later documents to its first as JSON Merge Patches. */
  lemma {:induction false} FoldedRefinesPatches(docs: seq<Document>)
    requires docs != [] && Parsed(docs) && NoDeletions(docs)
    ensures !IsDeletion(Folded(docs))
    ensures Abs(Folded(docs)) == Applied(Abs(docs[0].value), Meanings(docs[1..]))
  {
    hide WellFormed, Merged, IsDeletion, Abs, MergePatch;
    if |docs| == 1 {
    } else {
      var front, last := docs[..|docs| - 1], docs[|docs| - 1];
      FoldedRefinesPatches(front);
      FoldedIsWellFormed(front);
      MergedIsNoDeletion(Folded(front), last.value);
      MergeRefinesPatch(Folded(front), last.value);
      var later := Meanings(docs[1..]);
      assert later[..|later| - 1] == Meanings(front[1..]);
    }
  }

  /** Every document of a host's patch file keeps the identity of the documents it was folded from. */
  lemma {:induction false} FoldedKeepsIdentity(docs: seq<Document>, identity: Identity)
    requires docs != [] && Parsed(docs)
    requires forall d :: d in docs ==> IdentityOf(d.value) == identity
    ensures IdentityOf(Folded(docs)) == identity
  {
    hide WellFormed, MergedDocument, TextAt;
    if |docs| == 1 {
    } else {
      var front, last := docs[..|docs| - 1], docs[|docs| - 1];
      FoldedKeepsIdentity(front, identity);
      FoldedIsWellFormed(front);
      MergeKeepsText(Folded(front), last.value, "apiVersion");
      MergeKeepsText(Folded(front), last.value, "kind");
      MergeKeepsText(Folded(front), last.value, "name");
    }
  }

  lemma PatchesKeepIdentity(file: SlipmeshFile, host: string, out: seq<HostDocument>)
    requires Parsed(file.patches) && IsPatchesFor(Chosen(file.patches, ToHost(host)), out)
    ensures forall i :: 0 <= i < |out| ==> IdentityOf(out[i].value) == out[i].identity
  {
    var reaching := Chosen(file.patches, ToHost(host));
    hide IdentityOf, Sources, Folded, Chosen;
    forall i | 0 <= i < |out| ensures IdentityOf(out[i].value) == out[i].identity {
      var sources := Sources(reaching, out[i].identity);
      forall d | d in sources ensures d in file.patches && IdentityOf(d.value) == out[i].identity {
        SourcesIn(reaching, out[i].identity, d);
        ChosenIn(file.patches, ToHost(host), d);
      }
      FoldedKeepsIdentity(sources, out[i].identity);
    }
  }

  /** A deletion makes the group forget what came before it, and the document after it starts afresh. */
  lemma {:induction false} DeletionForgets(docs: seq<Document>, i: nat)
    requires i < |docs| && IsDeletion(docs[i].value)
    ensures Folded(docs) == Folded(docs[i..])
    ensures i + 1 < |docs| ==> Folded(docs) == Folded(docs[i + 1..])
  {
    hide IsDeletion, Merged;
    var n := |docs| - 1;
    var front := docs[..n];
    if i < n {
      DeletionForgets(front, i);
      assert docs[i..][..n - i] == front[i..];
      assert i + 1 < n ==> docs[i + 1..][..n - i - 1] == front[i + 1..];
      assert i + 1 == n ==> front[i..] == [docs[i]];
    } else {
      assert docs[i..] == [docs[i]];
    }
  }

  // ---- Order ----

  /** The documents of a group agree: no two of them say different things about one place. */
  ghost predicate Agreeing(docs: seq<Document>) {
    AllAgree(Meanings(docs))
  }

  ghost predicate NoNulls(docs: seq<Document>) {
    forall d :: d in docs ==> Solid(Abs(d.value))
  }

  lemma {:induction false} MeaningsPermute(xs: seq<Document>, ys: seq<Document>)
    requires multiset(xs) == multiset(ys)
    ensures multiset(Meanings(xs)) == multiset(Meanings(ys))
    decreases |xs|
  {
    hide Abs;
    if xs == [] {
      assert |multiset(ys)| == 0;
    } else {
      var i := TakeOutLast(xs, ys);
      MeaningsPermute(xs[..|xs| - 1], ys[..i] + ys[i + 1..]);
      assert Meanings(xs) == Meanings(xs[..|xs| - 1]) + [Abs(ys[i].value)];
      assert Meanings(ys) == Meanings(ys[..i]) + [Abs(ys[i].value)] + Meanings(ys[i + 1..]);
      assert Meanings(ys[..i] + ys[i + 1..]) == Meanings(ys[..i]) + Meanings(ys[i + 1..]);
    }
  }

  lemma {:induction false} AppliedFirst(t: Json, p: Json, ps: seq<Json>)
    ensures Applied(MergePatch(t, p), ps) == Applied(t, [p] + ps)
  {
    hide MergePatch;
    if ps == [] {
      assert [p] + ps == [p];
      assert [p][..0] == [];
    } else {
      AppliedFirst(t, p, ps[..|ps| - 1]);
      assert ([p] + ps)[..|ps|] == [p] + ps[..|ps| - 1];
    }
  }

  /** Two arrangements of agreeing documents that hold no nulls fold to the same keys and values. */
  lemma FoldedInAnyOrder(xs: seq<Document>, ys: seq<Document>)
    requires xs != [] && multiset(xs) == multiset(ys)
    requires Parsed(xs) && NoDeletions(xs) && NoNulls(xs) && Agreeing(xs)
    ensures ys != [] && Abs(Folded(xs)) == Abs(Folded(ys))
  {
    hide WellFormed, Merged, IsDeletion, Abs, MergePatch, Folded, Solid, AllAgree, Meanings;
    assert ys != [] by {
      assert xs[0] in multiset(ys);
    }
    forall d ensures d in ys <==> d in xs {
      assert d in xs <==> d in multiset(xs);
      assert d in ys <==> d in multiset(ys);
    }
    FoldedOverNothing(xs);
    FoldedOverNothing(ys);
    MeaningsPermute(xs, ys);
    AnyOrder(JNull, Meanings(xs), Meanings(ys));
  }

  lemma FoldedOverNothing(docs: seq<Document>)
    requires docs != [] && Parsed(docs) && NoDeletions(docs) && NoNulls(docs)
    ensures Abs(Folded(docs)) == Applied(JNull, Meanings(docs))
  {
    hide WellFormed, Merged, IsDeletion, Abs, MergePatch, Folded, Solid;
    FoldedRefinesPatches(docs);
    var first := Abs(docs[0].value);
    assert docs[0] in docs;
    PatchOverNothing(first);
    AppliedFirst(JNull, first, Meanings(docs[1..]));
    assert Meanings(docs) == [first] + Meanings(docs[1..]);
  }

  lemma {:induction false} SourcesPermute(here: seq<Document>, there: seq<Document>, host: string, identity: Identity)
    requires multiset(here) == multiset(there)
    ensures multiset(Sources(Chosen(here, ToHost(host)), identity)) ==
      multiset(Sources(Chosen(there, ToHost(host)), identity))
  {
    hide *;
    var h, t := Chosen(here, ToHost(host)), Chosen(there, ToHost(host));
    forall d ensures multiset(Sources(h, identity))[d] == multiset(Sources(t, identity))[d] {
      SourcesCount(h, identity, d);
      SourcesCount(t, identity, d);
      ChosenCount(here, ToHost(host), d);
      ChosenCount(there, ToHost(host), d);
    }
  }

  /** The order of a file's documents is irrelevant to a group whose documents agree, delete nothing and
      hold no nulls: shuffling the whole file leaves the group's keys and values as they were. */
  lemma FileOrderIsIrrelevant(here: seq<Document>, there: seq<Document>, host: string, identity: Identity)
    requires multiset(here) == multiset(there)
    requires var sources := Sources(Chosen(here, ToHost(host)), identity);
      sources != [] && Parsed(sources) && NoDeletions(sources) && NoNulls(sources) && Agreeing(sources)
    ensures Sources(Chosen(there, ToHost(host)), identity) != []
    ensures Abs(Folded(Sources(Chosen(here, ToHost(host)), identity))) ==
      Abs(Folded(Sources(Chosen(there, ToHost(host)), identity)))
  {
    hide *;
    SourcesPermute(here, there, host, identity);
    FoldedInAnyOrder(Sources(Chosen(here, ToHost(host)), identity), Sources(Chosen(there, ToHost(host)), identity));
  }

  /** Two agreeing documents of one group can trade places exactly when they share their nulls: the first
      of a group is not stripped of its own. */
  lemma PairSwapsIff(a: Document, b: Document)
    requires Parsed([a, b]) && NoDeletions([a, b]) && Agreeing([a, b])
    ensures Abs(a.value).JObject? && Abs(b.value).JObject?
    ensures Abs(Folded([a, b])) == Abs(Folded([b, a])) <==> NullsAreShared(Abs(a.value), Abs(b.value))
  {
    hide WellFormed, Merged, IsDeletion, MergePatch, Folded, NullsAreShared, Agree;
    FoldedPair(a, b);
    FoldedPair(b, a);
    assert Agree(Abs(a.value), Abs(b.value)) by {
      assert Meanings([a, b])[0] in Meanings([a, b]) && Meanings([a, b])[1] in Meanings([a, b]);
    }
    SwapIff(Abs(a.value), Abs(b.value));
  }

  lemma FoldedPair(a: Document, b: Document)
    requires Parsed([a, b]) && NoDeletions([a, b])
    ensures Abs(Folded([a, b])) == MergePatch(Abs(a.value), Abs(b.value))
  {
    hide WellFormed, Merged, IsDeletion, MergePatch, Folded, Abs;
    assert a in [a, b] && b in [a, b];
    FoldedRefinesPatches([a, b]);
    var later := Meanings([a, b][1..]);
    assert later == [Abs(b.value)];
    assert later[..0] == [];
  }
}
