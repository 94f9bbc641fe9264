/** What the bypass covers for whatever entries, host bits included: nothing that is not included, everything
    that is included and not excluded, and under a label without loose host bits nothing that an aligned
    entry excludes. */
module BypassBounds {
  import opened Blocks
  import opened CidrOps
  import opened Cidrs
  import opened Collapsing
  import opened Resolver

  lemma LeftLies(c: Cidr, m: Cidr, exc: Cidr)
    requires IsLeft(c, m, exc)
    ensures Block(c) <= Block(m) && (Aligned(m) ==> Aligned(c))
    ensures Aligned(m) && Aligned(exc) ==> Block(c) !! Block(exc)
  {
    hide In, Contains, Aligned, Parent;
    if Aligned(m) && Aligned(exc) {
      LeftInside(c, m, exc);
    }
  }

  /** What survives of a prefix lies in it, and where it is aligned outside every aligned exclusion. */
  lemma {:induction false} SurvivorLies(c: Cidr, n: Cidr, exclusions: seq<Cidr>)
    requires Survives(c, n, exclusions)
    ensures Block(c) <= Block(n) && (Aligned(n) ==> Aligned(c))
    ensures forall exc :: exc in exclusions && Aligned(n) && Aligned(exc) ==> Block(c) !! Block(exc)
    decreases |exclusions|
  {
    hide Aligned, Block, IsLeft;
    if exclusions == [] {
    } else {
      var front, last := exclusions[..|exclusions| - 1], exclusions[|exclusions| - 1];
      assert exclusions == front + [last];
      var m :| Survives(m, n, front) && IsLeft(c, m, last);
      SurvivorLies(m, n, front);
      LeftLies(c, m, last);
      forall exc | exc in exclusions && Aligned(n) && Aligned(exc) ensures Block(c) !! Block(exc) {
        if exc in front {
          Apart(Block(c), Block(m), Block(exc));
        }
      }
    }
  }

  lemma Apart<T>(inner: iset<T>, outer: iset<T>, other: iset<T>)
    requires inner <= outer && outer !! other
    ensures inner !! other
  {}

  /** An address no exclusion holds survives, whatever host bits there are. */
  lemma {:induction false} AddressSurvives(a: bv32, n: Cidr, exclusions: seq<Cidr>) returns (c: Cidr)
    requires In(a, n) && forall exc :: exc in exclusions ==> !In(a, exc)
    ensures Survives(c, n, exclusions) && In(a, c)
  {
    hide In, IsLeft;
    if exclusions == [] {
      c := n;
    } else {
      var front, last := exclusions[..|exclusions| - 1], exclusions[|exclusions| - 1];
      assert exclusions == front + [last];
      var m := AddressSurvives(a, n, front);
      LeftHolds(m, last, a);
      c :| IsLeft(c, m, last) && In(a, c);
      assert SurvivesLast(c, n, front, last);
    }
  }

  /** Under every label the result covers no more than the label includes, and all of it that nothing
      excludes. */
  lemma BypassBetween(sources: seq<Entry>, exclude: seq<Entry>, parts: Parts, out: seq<Labelled>, tag: string)
    requires ComesOf(sources, exclude, parts, out)
    ensures Covered(NetsOf(out, tag)) <= Covered(NetsLabelled(sources, tag))
    ensures Covered(NetsLabelled(sources, tag)) - Covered(ParsedNets(exclude)) <= Covered(NetsOf(out, tag))
  {
    hide In, Survives, NetsOf, NetsLabelled, ParsedNets, CollapsesTo, Sorted, AllNets;
    CollapseCovers(NetsLabelled(sources, tag), NetsOf(parts.included, tag));
    CollapseCovers(AllNets(parts.excluded), Elements(parts.holes));
    AggregateCovers(exclude, parts.excluded);
    forall a | InAny(a, NetsOf(out, tag)) ensures InAny(a, NetsOf(parts.included, tag)) {
      var c :| c in NetsOf(out, tag) && In(a, c);
      assert SurvivesOf(c, NetsOf(parts.included, tag), parts.holes);
      var n :| n in NetsOf(parts.included, tag) && Survives(c, n, parts.holes);
      SurvivorLies(c, n, parts.holes);
      assert a in Block(c);
    }
    forall a | InAny(a, NetsOf(parts.included, tag)) && !InAny(a, Elements(parts.holes))
      ensures InAny(a, NetsOf(out, tag))
    {
      var n :| n in NetsOf(parts.included, tag) && In(a, n);
      var c := AddressSurvives(a, n, parts.holes);
      assert SurvivesOf(c, NetsOf(parts.included, tag), parts.holes);
    }
  }

  /** An aligned exclusion lies within the aligned ones that are taken out. */
  lemma AlignedExclusionStays(exclude: seq<Entry>, parts: Parts, e: Cidr)
    requires Aggregates(exclude, parts.excluded) && CollapsesTo(AllNets(parts.excluded), Elements(parts.holes))
    requires e in ParsedNets(exclude) && Aligned(e)
    ensures Block(e) <= Covered(AlignedIn(Elements(parts.holes)))
  {
    hide In, Aligned, LabelOf, Canonical;
    LabelOfParsed(exclude, e);
    var tag := LabelOf(exclude, e).value;
    var labelled, kept, all := NetsLabelled(exclude, tag), NetsOf(parts.excluded, tag), AllNets(parts.excluded);
    assert e in AlignedIn(labelled);
    MemberInside(AlignedIn(labelled), e);
    assert CollapsesTo(labelled, kept);
    assert kept <= all;
    CoversMore(AlignedIn(kept), AlignedIn(all));
  }

  lemma CoversMore(nets: set<Cidr>, more: set<Cidr>)
    requires nets <= more
    ensures Covered(nets) <= Covered(more)
  {
    hide In;
  }

  /** Under a label whose entries with host bits are subsumed, no address of an aligned exclusion is left,
      whatever host bits other exclusions have. */
  lemma AlignedExclusionsHold(sources: seq<Entry>, exclude: seq<Entry>, parts: Parts, out: seq<Labelled>, tag: string,
                              e: Cidr)
    requires ComesOf(sources, exclude, parts, out) && Tame(NetsLabelled(sources, tag))
    requires e in ParsedNets(exclude) && Aligned(e)
    ensures Covered(NetsOf(out, tag)) !! Block(e)
  {
    AlignedExclusionStays(exclude, parts, e);
    assert AllAligned(NetsOf(parts.included, tag)) by {
      hide Covered, NetsOf, NetsLabelled;
      TameCollapse(NetsLabelled(sources, tag), NetsOf(parts.included, tag));
    }
    hide In, Aligned, Survives, NetsOf, NetsLabelled, ParsedNets, CollapsesTo, Sorted, AllNets, Tame;
    forall a | InAny(a, NetsOf(out, tag)) ensures a !in Block(e) {
      var c :| c in NetsOf(out, tag) && In(a, c);
      assert SurvivesOf(c, NetsOf(parts.included, tag), parts.holes);
      var n :| n in NetsOf(parts.included, tag) && Survives(c, n, parts.holes);
      SurvivorLies(c, n, parts.holes);
      assert a in Block(c);
      forall hole | hole in AlignedIn(Elements(parts.holes)) ensures !In(a, hole) {
        assert hole in parts.holes && Aligned(hole);
        assert a !in Block(hole);
      }
      assert a !in Covered(AlignedIn(Elements(parts.holes)));
    }
  }
}
