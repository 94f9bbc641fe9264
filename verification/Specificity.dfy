/** What a host's patch file holds, said of the file's documents: which identities reach the host, and that
    a document that names the host wins over one that does not, wherever the two stand. */
module Specificity {
  import opened Merging
  import opened Patches
  import opened Wrappers

  /** The document is for every host, or names this one, and does not exclude it. */
  ghost predicate IsFor(d: Document, host: string) {
    && (d.including.None? || host in d.including.value)
    && (d.excluding.None? || host !in d.excluding.value)
  }

  ghost predicate NamesHost(d: Document, host: string) {
    d.including.Some? && IsFor(d, host)
  }

  /** Under each of the three keys the document holds exactly the identity's text, if it has one. */
  ghost predicate HasIdentity(value: Value, identity: Identity) {
    && HoldsExactly(value, "apiVersion", identity.apiVersion)
    && HoldsExactly(value, "kind", identity.kind)
    && HoldsExactly(value, "name", identity.name)
  }

  ghost predicate HoldsExactly(value: Value, key: string, text: Option<string>) {
    forall held :: Holds(value, key, held) <==> text == Some(held)
  }

  lemma ReachesIff(d: Document, host: string)
    ensures Reaches(d, host) <==> IsFor(d, host)
  {}

  lemma IdentityMeans(value: Value, identity: Identity)
    requires WellFormed(value)
    ensures IdentityOf(value) == identity <==> HasIdentity(value, identity)
  {
    HeldText(value, "apiVersion", identity.apiVersion);
    HeldText(value, "kind", identity.kind);
    HeldText(value, "name", identity.name);
    hide TextAt, HoldsExactly;
  }

  lemma HeldText(value: Value, key: string, text: Option<string>)
    requires WellFormed(value)
    ensures TextAt(value, key) == text <==> HoldsExactly(value, key, text)
  {
    hide TextAt, Holds, WellFormed;
    forall held ensures TextAt(value, key) == Some(held) <==> Holds(value, key, held) {
      TextAtIff(value, key, held);
    }
  }

  // ---- Which identities a host gets ----

  /** A host gets one document for each identity that one of its documents has, no two of one identity, and
      no other. */
  lemma HostGets(file: SlipmeshFile, host: string, out: seq<HostDocument>, identity: Identity)
    requires Parsed(file.patches) && IsPatchesFor(Chosen(file.patches, ToHost(host)), out)
    ensures (exists k :: 0 <= k < |out| && out[k].identity == identity) <==>
      exists d :: d in file.patches && IsFor(d, host) && HasIdentity(d.value, identity)
    ensures forall j, k :: 0 <= j < k < |out| ==> out[j].identity != out[k].identity
  {
    hide IsGroup, Chosen, Identities, IdentityOf, HasIdentity, IsFor, WellFormed, Reaches;
    var reaching := Chosen(file.patches, ToHost(host));
    IdentitiesInOrder(reaching);
    forall d ensures d in reaching <==> d in file.patches && IsFor(d, host) {
      ChosenIn(file.patches, ToHost(host), d);
      ReachesIff(d, host);
    }
    forall d | d in file.patches ensures IdentityOf(d.value) == identity <==> HasIdentity(d.value, identity) {
      IdentityMeans(d.value, identity);
    }
    assert forall k :: 0 <= k < |out| ==> Listed(out)[k] == out[k].identity;
    if k :| 0 <= k < |out| && out[k].identity == identity {
      assert identity in Identities(reaching);
    }
    if d :| d in file.patches && IsFor(d, host) && HasIdentity(d.value, identity) {
      var k :| 0 <= k < |reaching| && reaching[k] == d;
      assert identity in Identities(reaching);
      var j :| 0 <= j < |Identities(reaching)| && Identities(reaching)[j] == identity;
      assert out[j].identity == identity;
    }
  }

  // ---- The more specific document wins ----

  /** A document that is chosen stands in the choice with what was chosen before it and after it around. */
  lemma ChosenAround(docs: seq<Document>, c: Choice, p: nat)
    requires p < |docs| && Chooses(c, docs[p])
    ensures Chosen(docs, c) == Chosen(docs[..p], c) + [docs[p]] + Chosen(docs[p + 1..], c)
  {
    hide Chosen, Chooses;
    assert docs == docs[..p] + [docs[p]] + docs[p + 1..];
    ChosenConcat(docs[..p] + [docs[p]], docs[p + 1..], c);
    ChosenConcat(docs[..p], [docs[p]], c);
    ChosenOne(docs[p], c);
  }

  /** The group of a document that names the host: what comes after it in the group are documents that name
      the host and come after it in the file. */
  lemma GroupAround(file: SlipmeshFile, host: string, p: nat) returns (before: seq<Document>, after: seq<Document>)
    requires p < |file.patches| && NamesHost(file.patches[p], host)
    ensures Sources(Chosen(file.patches, ToHost(host)), IdentityOf(file.patches[p].value)) ==
      before + [file.patches[p]] + after
    ensures forall d :: d in after ==>
      d in file.patches[p + 1..] && NamesHost(d, host) && IdentityOf(d.value) == IdentityOf(file.patches[p].value)
  {
    var docs, d := file.patches, file.patches[p];
    var identity := IdentityOf(d.value);
    ReachesIff(d, host);
    ChosenAround(docs, ToHost(host), p);
    var tail := Chosen(docs[p + 1..], ToHost(host));
    var reaching := Chosen(docs, ToHost(host));
    var q := |Chosen(docs[..p], ToHost(host))|;
    assert reaching[q] == d && reaching[q + 1..] == tail;
    ChosenAround(reaching, Included, q);
    var named := Chosen(reaching, Included);
    var r := |Chosen(reaching[..q], Included)|;
    var tail' := Chosen(tail, Included);
    assert named[r] == d && named[r + 1..] == tail';
    ChosenAround(named, Of(identity), r);
    before := Chosen(Chosen(reaching, Default), Of(identity)) + Chosen(named[..r], Of(identity));
    after := Chosen(tail', Of(identity));
    ChosenConcat(Chosen(reaching, Default), named, Of(identity));
    forall e | e in after ensures e in docs[p + 1..] && NamesHost(e, host) && IdentityOf(e.value) == identity {
      ChosenIn(tail', Of(identity), e);
      ChosenIn(tail, Included, e);
      ChosenIn(docs[p + 1..], ToHost(host), e);
      ReachesIff(e, host);
    }
    hide Chosen, NamesHost, IdentityOf;
  }

  /** The document, or no document after it, is a deletion, and none after it mentions the key. */
  ghost predicate LeavesAlone(d: Document, after: seq<Document>, key: string) {
    forall e :: e in after ==> !Mentions(e.value, key) && !IsDeletion(e.value) && !IsDeletion(d.value)
  }

  lemma {:induction false} FoldedKeepsText(before: seq<Document>, d: Document, after: seq<Document>, key: string)
    requires Parsed(before + [d] + after) && TextAt(d.value, key).Some? && LeavesAlone(d, after, key)
    ensures TextAt(Folded(before + [d] + after), key) == TextAt(d.value, key)
    ensures after != [] ==> !IsDeletion(Folded(before + [d] + after))
    decreases |after|
  {
    hide WellFormed, TextAt, IsDeletion, MergedDocument, Merged, Mentions;
    if after == [] {
      LastTextWins(before, d, key);
    } else {
      var front, last := after[..|after| - 1], after[|after| - 1];
      var docs := before + [d] + front;
      assert before + [d] + after == docs + [last];
      assert forall e :: e in front ==> e in after;
      assert Parsed(docs) by {
        assert forall e :: e in docs ==> e in docs + [last];
      }
      assert last in after && last in docs + [last];
      FoldedKeepsText(before, d, front, key);
      if front == [] {
        LastIsNoDeletion(before, d);
      }
      FoldedIsWellFormed(docs);
      UnmentionedTextStays(Folded(docs), last.value, key);
      MergedIsNoDeletion(Folded(docs), last.value);
      EditsMerge(Folded(docs), last.value);
      assert (docs + [last])[..|docs|] == docs;
    }
  }

  lemma EditsMerge(base: Value, overlay: Value)
    ensures !IsDeletion(base) && !IsDeletion(overlay) ==> MergedDocument(base, overlay) == Merged(base, overlay)
    ensures IsDeletion(base) ==> MergedDocument(base, overlay) == overlay
  {}

  lemma LastTextWins(before: seq<Document>, d: Document, key: string)
    requires Parsed(before + [d]) && TextAt(d.value, key).Some?
    ensures TextAt(Folded(before + [d] + []), key) == TextAt(d.value, key)
  {
    hide WellFormed, TextAt, MergedDocument;
    var docs := before + [d];
    assert docs + [] == docs && d in docs;
    if before != [] {
      assert docs[..|docs| - 1] == before;
      assert Parsed(before) by {
        assert forall e :: e in before ==> e in docs;
      }
      FoldedIsWellFormed(before);
      OverlayTextWins(Folded(before), d.value, key);
    }
  }

  lemma LastIsNoDeletion(before: seq<Document>, d: Document)
    requires Parsed(before + [d]) && !IsDeletion(d.value)
    ensures !IsDeletion(Folded(before + [d] + []))
  {
    hide WellFormed, IsDeletion, MergedDocument, Merged;
    var docs := before + [d];
    assert docs + [] == docs && d in docs;
    if before != [] {
      assert docs[..|docs| - 1] == before;
      assert Parsed(before) by {
        assert forall e :: e in before ==> e in docs;
      }
      FoldedIsWellFormed(before);
      EditsMerge(Folded(before), d.value);
      if !IsDeletion(Folded(before)) {
        MergedIsNoDeletion(Folded(before), d.value);
      }
    }
  }

  ghost predicate Speaks(d: Document, host: string, identity: Identity) {
    NamesHost(d, host) && HasIdentity(d.value, identity)
  }

  /** The document names the host, has the identity and holds the text; no later one that names the host and
      has the identity mentions the key, and neither it nor a later one is a deletion. */
  ghost predicate HasLastWord(file: SlipmeshFile, host: string, identity: Identity, p: nat, key: string, text: string)
    requires p < |file.patches|
  {
    var d := file.patches[p];
    && Speaks(d, host, identity) && Holds(d.value, key, text)
    && forall q :: p < q < |file.patches| && Speaks(file.patches[q], host, identity) ==>
      && !Mentions(file.patches[q].value, key)
      && !Holds(file.patches[q].value, "$patch", "delete") && !Holds(d.value, "$patch", "delete")
  }

  /** What the last document to name the host says under a key is what the host gets there, whatever any
      default says and wherever it stands in the file. */
  lemma SpecificWins(file: SlipmeshFile, host: string, out: seq<HostDocument>, k: nat, p: nat, key: string,
                     text: string)
    requires Parsed(file.patches) && IsPatchesFor(Chosen(file.patches, ToHost(host)), out)
    requires k < |out| && p < |file.patches| && HasLastWord(file, host, out[k].identity, p, key, text)
    ensures Holds(out[k].value, key, text)
  {
    var docs, d := file.patches, file.patches[p];
    var reaching := Chosen(docs, ToHost(host));
    hide WellFormed, TextAt, Holds, Mentions, IsDeletion, Folded, IdentityOf, HasIdentity, NamesHost, Chosen, Sources;
    assert d in docs;
    IdentityMeans(d.value, out[k].identity);
    var before, after := GroupAround(file, host, p);
    var group := before + [d] + after;
    assert IsGroup(reaching, out[k]);
    forall e | e in group ensures e in docs {
      SourcesIn(reaching, out[k].identity, e);
      ChosenIn(docs, ToHost(host), e);
    }
    DeletionMeans(d.value);
    forall e | e in after ensures !Mentions(e.value, key) && !IsDeletion(e.value) && !IsDeletion(d.value) {
      var q :| p < q < |docs| && docs[q] == e;
      assert e in docs;
      IdentityMeans(e.value, out[k].identity);
      DeletionMeans(e.value);
    }
    TextAtIff(d.value, key, text);
    FoldedKeepsText(before, d, after, key);
    FoldedIsWellFormed(group);
    TextAtIff(out[k].value, key, text);
  }
}
