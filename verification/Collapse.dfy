/** `collapse`: drop the subsumed entries, then merge sibling pairs in passes until a pass merges none.
    Entries with host bits set take no part in it: nothing merges with them, they subsume nothing, and
    they leave only when a larger aligned entry subsumes them. */
module Collapsing {
  import opened Blocks
  import opened CidrOps
  import opened Cidrs
  import opened Lists
  import opened Words

  // ---- Sorting ----

  /** The order of `(address, length)` pairs. */
  predicate Less(c: Cidr, d: Cidr) {
    Below(c.addr, d.addr) || (c.addr == d.addr && c.len < d.len)
  }

  /** The lesser address first, and of one address the shorter prefix: a block comes before every other
      aligned one inside it. */
  lemma OuterIsLess(c: Cidr, d: Cidr)
    requires Contains(c, d) && c != d
    ensures Less(c, d)
  {
    hide Below, And, Mask;
    BelowTotal(c.addr, d.addr);
    MaskedNotAbove(d.addr, Mask(c.len));
  }

  predicate Sorted(nets: seq<Cidr>) {
    forall i, j :: 0 <= i < j < |nets| ==> Less(nets[i], nets[j])
  }

  lemma LessOrders(c: Cidr, d: Cidr, e: Cidr)
    ensures Less(c, d) && Less(d, e) ==> Less(c, e)
    ensures !Less(c, c)
    ensures Less(c, d) || c == d || Less(d, c)
  {
    hide Below;
    BelowIrreflexive(c.addr);
    BelowTotal(c.addr, d.addr);
    if Below(c.addr, d.addr) && Below(d.addr, e.addr) {
      BelowTrans(c.addr, d.addr, e.addr);
    }
  }

  function Insert(nets: seq<Cidr>, c: Cidr): (r: seq<Cidr>)
    requires Sorted(nets)
    ensures Sorted(r) && Elements(r) == Elements(nets) + {c}
    ensures |r| <= |nets| + 1
  {
    if nets == [] then [c]
    else
      LessOrders(c, nets[0], c);
      if Less(c, nets[0]) then
        InsertFront(nets, c);
        [c] + nets
      else if c == nets[0] then nets
      else
        var rest := Insert(nets[1..], c);
        InsertFront'(nets, c, rest);
        [nets[0]] + rest
  }

  lemma InsertFront(nets: seq<Cidr>, c: Cidr)
    requires Sorted(nets) && nets != [] && Less(c, nets[0])
    ensures Sorted([c] + nets) && Elements([c] + nets) == Elements(nets) + {c}
  {
    forall j | 0 < j < |nets| ensures Less(c, nets[j]) {
      LessOrders(c, nets[0], nets[j]);
    }
  }

  lemma InsertFront'(nets: seq<Cidr>, c: Cidr, rest: seq<Cidr>)
    requires Sorted(nets) && nets != [] && Less(nets[0], c)
    requires Sorted(rest) && Elements(rest) == Elements(nets[1..]) + {c}
    ensures Sorted([nets[0]] + rest) && Elements([nets[0]] + rest) == Elements(nets) + {c}
  {
    assert nets == [nets[0]] + nets[1..];
    forall j | 0 <= j < |rest| ensures Less(nets[0], rest[j]) {
      assert rest[j] in Elements(rest);
    }
    forall d ensures d in Elements([nets[0]] + rest) <==> d in Elements(nets) + {c} {
      assert d in [nets[0]] + rest <==> d == nets[0] || d in Elements(rest);
      assert d in nets <==> d == nets[0] || d in Elements(nets[1..]);
    }
  }

  /** `sort` followed by `dedup`. */
  function SortDedup(nets: seq<Cidr>): (r: seq<Cidr>)
    ensures Sorted(r) && Elements(r) == Elements(nets)
    ensures |r| <= |nets|
  {
    if nets == [] then []
    else
      var front, last := nets[..|nets| - 1], nets[|nets| - 1];
      assert Elements(nets) == Elements(front) + {last} by {
        assert nets == front + [last];
      }
      Insert(SortDedup(front), last)
  }

  lemma SortedNoDuplicates(nets: seq<Cidr>)
    requires Sorted(nets)
    ensures NoDuplicates(nets)
  {
    forall i, j | 0 <= i < j < |nets| ensures nets[i] != nets[j] {
      LessOrders(nets[i], nets[j], nets[i]);
    }
  }

  lemma HasElements(nets: seq<Cidr>)
    requires nets != []
    ensures Elements(nets) != {}
  {
    assert nets[0] in Elements(nets);
  }

  /** A sorted list without duplicates is determined by its elements. */
  lemma {:induction false} SortedIsUnique(xs: seq<Cidr>, ys: seq<Cidr>)
    requires Sorted(xs) && Sorted(ys) && Elements(xs) == Elements(ys)
    ensures xs == ys
  {
    if xs == [] {
      if ys != [] { HasElements(ys); }
    } else {
      assert xs[0] in Elements(ys);
      var i :| 0 <= i < |ys| && ys[i] == xs[0];
      assert ys[0] in Elements(xs);
      var j :| 0 <= j < |xs| && xs[j] == ys[0];
      LessOrders(xs[0], ys[0], xs[0]);
      assert xs[0] == ys[0];
      assert xs == [xs[0]] + xs[1..] && ys == [ys[0]] + ys[1..];
      SortedNoDuplicates(xs);
      SortedNoDuplicates(ys);
      assert Elements(xs[1..]) == Elements(xs) - {xs[0]};
      assert Elements(ys[1..]) == Elements(ys) - {ys[0]};
      SortedIsUnique(xs[1..], ys[1..]);
    }
  }

  // ---- What collapsing keeps ----

  ghost function AlignedIn(nets: set<Cidr>): set<Cidr> {
    set c | c in nets && Aligned(c)
  }

  ghost function UnalignedIn(nets: set<Cidr>): set<Cidr> {
    set c | c in nets && !Aligned(c)
  }

  /** A larger, aligned entry of the list holds `n`. */
  predicate Subsumed(n: Cidr, nets: set<Cidr>) {
    exists other | other in nets :: other != n && other.len < n.len && Contains(other, n)
  }

  /** One state of the merging: nested nowhere, and saying what the list it started from says. */
  ghost predicate Reduced(nets: set<Cidr>, from: set<Cidr>) {
    && Antichain(AlignedIn(nets))
    && Covered(AlignedIn(nets)) == Covered(AlignedIn(from))
    && UnalignedIn(nets) == UnalignedIn(from)
  }

  // ---- Dropping the subsumed ----

  lemma {:induction false} Survivor(n: Cidr, nets: set<Cidr>, kept: set<Cidr>) returns (s: Cidr)
    requires n in nets && Aligned(n)
    requires kept == set c | c in nets && !Subsumed(c, nets)
    ensures s in kept && Aligned(s) && Contains(s, n)
    decreases n.len
  {
    hide NetworkAddr;
    if Subsumed(n, nets) {
      var other :| other in nets && other != n && other.len < n.len && Contains(other, n);
      ContainsBlock(other, n, n.addr);
      s := Survivor(other, nets, kept);
      ContainsTrans(s, other, n);
    } else {
      ContainsSelf(n);
      s := n;
    }
  }

  lemma DropSubsumed(nets: set<Cidr>, kept: set<Cidr>)
    requires kept == set c | c in nets && !Subsumed(c, nets)
    ensures Antichain(AlignedIn(kept))
    ensures Covered(AlignedIn(kept)) == Covered(AlignedIn(nets))
  {
    hide NetworkAddr, In;
    forall c, d | c in AlignedIn(kept) && d in AlignedIn(kept) && Contains(c, d) ensures c == d {
      if c.len == d.len { SameLength(c, d); }
    }
    forall a | InAny(a, AlignedIn(nets)) ensures InAny(a, AlignedIn(kept)) {
      var n :| n in AlignedIn(nets) && In(a, n);
      var s := Survivor(n, nets, kept);
      ContainsBlock(s, n, a);
    }
  }

  // ---- Merging one pair ----

  lemma SiblingAbsorbs(x: Cidr, c: Cidr)
    requires Aligned(x) && Aligned(c) && c.len > 0 && Contains(Parent(c), x)
    ensures x == Parent(c) || Contains(c, x) || Contains(Sibling(c), x)
  {
    hide NetworkAddr, Or, BlockSize, In;
    SiblingAligned(c);
    if x.len == c.len - 1 {
      SameLength(Parent(c), x);
    } else {
      ContainsIsSubset(Parent(c), x);
      ParentSplits(c);
      NetworkSameBlock(x, x.addr);
      assert x.addr in Block(x);
      if x.addr in Block(c) {
        Laminar(c, x, x.addr);
      } else {
        Laminar(Sibling(c), x, x.addr);
      }
    }
  }

  lemma MergePair(nets: set<Cidr>, from: set<Cidr>, c: Cidr, nets': set<Cidr>)
    requires Reduced(nets, from)
    requires c in nets && Aligned(c) && c.len > 0 && Sibling(c) in nets
    requires nets' == nets - {c, Sibling(c)} + {Parent(c)}
    ensures Reduced(nets', from)
    ensures Parent(c) !in nets
  {
    hide NetworkAddr, Or, BlockSize, In;
    SiblingAligned(c);
    var s, p := Sibling(c), Parent(c);
    ParentContains(c);
    ParentContains(s);
    assert c in AlignedIn(nets) && s in AlignedIn(nets);
    assert AlignedIn(nets') == AlignedIn(nets) - {c, s} + {p};
    assert UnalignedIn(nets') == UnalignedIn(nets);
    forall x | x in AlignedIn(nets) && Contains(p, x) ensures x == c || x == s {
      SiblingAbsorbs(x, c);
    }
    forall x | x in AlignedIn(nets) && Contains(x, p) ensures false {
      ContainsTrans(x, p, c);
    }
    ParentSplits(c);
    CoveredMerge(AlignedIn(nets), AlignedIn(nets'), c, s, p);
  }

  lemma CoveredMerge(nets: set<Cidr>, nets': set<Cidr>, c: Cidr, s: Cidr, p: Cidr)
    requires c in nets && s in nets && nets' == nets - {c, s} + {p}
    requires Block(p) == Block(c) + Block(s)
    ensures Covered(nets') == Covered(nets)
  {
    hide In;
    forall a ensures InAny(a, nets') <==> InAny(a, nets) {
      if InAny(a, nets) {
        var x :| x in nets && In(a, x);
        if x == c || x == s {
          assert a in Block(x) && a in Block(p) && p in nets';
        } else {
          assert x in nets';
        }
      }
      if InAny(a, nets') {
        var x :| x in nets' && In(a, x);
        if x == p {
          assert a in Block(p);
          assert a in Block(c) || a in Block(s);
          assert In(a, c) || In(a, s);
        }
      }
    }
  }

  // ---- One pass ----

  /** The entries from `i` on that no pair has used up. */
  ghost function Pending(nets: seq<Cidr>, used: seq<bool>, i: nat): set<Cidr>
    requires |used| == |nets|
  {
    set k | i <= k < |nets| && !used[k] :: nets[k]
  }

  lemma PendingNext(nets: seq<Cidr>, used: seq<bool>, used': seq<bool>, i: nat)
    requires |used| == |used'| == |nets| && i < |nets| && NoDuplicates(nets)
    requires forall k :: i < k < |nets| ==> used[k] == used'[k]
    ensures Pending(nets, used', i + 1) == Pending(nets, used, i) - (if used[i] then {} else {nets[i]})
  {}

  lemma PendingPair(nets: seq<Cidr>, used: seq<bool>, used': seq<bool>, i: nat, j: nat)
    requires |used| == |used'| == |nets| && i < j < |nets| && NoDuplicates(nets)
    requires !used[i] && !used[j] && used' == used[i := true][j := true]
    ensures Pending(nets, used', i + 1) == Pending(nets, used, i) - {nets[i], nets[j]}
  {}

  /** `position` of an entry equal to `sibling`, other than entry `i` and not used yet. */
  method FindUnused(nets: seq<Cidr>, used: array<bool>, i: nat, sibling: Cidr) returns (j: nat)
    requires used.Length == |nets|
    ensures j <= |nets|
    ensures j < |nets| ==> j != i && !used[j] && nets[j] == sibling
    ensures j == |nets| ==> forall k :: 0 <= k < |nets| && k != i && !used[k] ==> nets[k] != sibling
  {
    j := 0;
    while j < |nets| && !(j != i && !used[j] && nets[j] == sibling)
      invariant j <= |nets|
      invariant forall k :: 0 <= k < j && k != i && !used[k] ==> nets[k] != sibling
    {
      j := j + 1;
    }
  }

  lemma NetworkNotAbove(x: bv32, l: PrefixLen)
    ensures !Below(x, NetworkAddr(x, l))
  {
    hide Below, And, Mask;
    MaskedNotAbove(x, Mask(l));
  }

  /** An entry whose sibling comes after it in sorted order has no host bits set. */
  lemma SiblingAheadIsAligned(c: Cidr)
    requires c.len > 0 && Less(c, Sibling(c))
    ensures Aligned(c)
  {
    hide NetworkAddr, Or, BlockSize, Below;
    var parent := NetworkAddr(c.addr, c.len - 1);
    if c.addr == parent {
      NetworkNests(c.addr, c.len - 1, c.len);
    } else {
      NetworkNotAbove(c.addr, c.len - 1);
      BelowIrreflexive(c.addr);
    }
  }

  /** Where a pass stands before entry `i`: what it has merged and what is pending say together what
      the list said, each merge has cost an entry, and while there was none, the pass has only copied
      entries without a sibling ahead. */
  ghost predicate PassState(nets: seq<Cidr>, used: seq<bool>, i: nat, merged: seq<Cidr>, changed: bool)
    requires |used| == |nets| && i <= |nets|
  {
    && SaysTheSame(nets, used, i, merged)
    && |merged| + |Pending(nets, used, i)| + (if changed then 1 else 0) <= |nets|
    && (forall k :: 0 <= k < i && nets[k].len > 0 ==> used[k])
    && (!changed ==> OnlyCopied(nets, used, i, merged))
  }

  ghost predicate SaysTheSame(nets: seq<Cidr>, used: seq<bool>, i: nat, merged: seq<Cidr>)
    requires |used| == |nets| && i <= |nets|
  {
    && Reduced(Elements(merged) + Pending(nets, used, i), Elements(nets))
    && Elements(merged) !! Pending(nets, used, i)
  }

  ghost predicate OnlyCopied(nets: seq<Cidr>, used: seq<bool>, i: nat, merged: seq<Cidr>)
    requires |used| == |nets| && i <= |nets|
  {
    && Elements(merged) == Elements(nets[..i])
    && (forall k :: i <= k < |nets| ==> !used[k])
    && (forall k, j :: 0 <= k < i && k < j < |nets| && nets[k].len > 0 ==> nets[j] != Sibling(nets[k]))
  }

  lemma ElementsPush(nets: seq<Cidr>, c: Cidr)
    ensures Elements(nets + [c]) == Elements(nets) + {c}
  {}

  lemma ElementsCount(nets: seq<Cidr>)
    ensures |Elements(nets)| <= |nets|
  {
    if nets == [] {
    } else {
      var front := nets[..|nets| - 1];
      ElementsCount(front);
      ElementsPush(front, nets[|nets| - 1]);
      assert nets == front + [nets[|nets| - 1]];
    }
  }

  lemma PassStart(nets: seq<Cidr>, used: seq<bool>)
    requires Antichain(AlignedIn(Elements(nets)))
    requires |used| == |nets| && forall k :: 0 <= k < |used| ==> !used[k]
    ensures PassState(nets, used, 0, [], false)
  {
    hide Aligned, Contains, Sibling, In;
    assert Pending(nets, used, 0) == Elements(nets);
    ElementsCount(nets);
  }

  lemma PassSkip(nets: seq<Cidr>, used: seq<bool>, i: nat, merged: seq<Cidr>, changed: bool)
    requires |used| == |nets| && i < |nets| && NoDuplicates(nets)
    requires PassState(nets, used, i, merged, changed) && used[i]
    ensures PassState(nets, used, i + 1, merged, changed)
  {
    hide Reduced, Elements, Sibling;
    PendingNext(nets, used, used, i);
    hide Pending, NoDuplicates;
    assert Pending(nets, used, i + 1) == Pending(nets, used, i);
  }

  lemma KeepSays(nets: seq<Cidr>, used: seq<bool>, i: nat, merged: seq<Cidr>, used': seq<bool>)
    requires |used| == |used'| == |nets| && i < |nets| && NoDuplicates(nets)
    requires SaysTheSame(nets, used, i, merged) && !used[i]
    requires forall k :: i < k < |nets| ==> used[k] == used'[k]
    ensures SaysTheSame(nets, used', i + 1, merged + [nets[i]])
    ensures |Pending(nets, used', i + 1)| == |Pending(nets, used, i)| - 1
  {
    hide Reduced;
    PendingNext(nets, used, used', i);
    ElementsPush(merged, nets[i]);
    assert nets[i] in Pending(nets, used, i);
    hide Pending, Elements;
    assert Elements(merged) + Pending(nets, used, i) == Elements(merged + [nets[i]]) + Pending(nets, used', i + 1);
  }

  lemma KeepCopies(nets: seq<Cidr>, used: seq<bool>, i: nat, merged: seq<Cidr>, used': seq<bool>)
    requires |used| == |used'| == |nets| && i < |nets|
    requires OnlyCopied(nets, used, i, merged)
    requires nets[i].len > 0 ==> forall k :: 0 <= k < |nets| && k != i && !used[k] ==> nets[k] != Sibling(nets[i])
    requires forall k :: i < k < |nets| ==> used[k] == used'[k]
    ensures OnlyCopied(nets, used', i + 1, merged + [nets[i]])
  {
    hide Sibling, Elements;
    ElementsPush(merged, nets[i]);
    ElementsPush(nets[..i], nets[i]);
    assert nets[..i + 1] == nets[..i] + [nets[i]];
  }

  lemma PassKeep(nets: seq<Cidr>, used: seq<bool>, i: nat, merged: seq<Cidr>, changed: bool, used': seq<bool>)
    requires |used| == |nets| && i < |nets| && NoDuplicates(nets) && !used[i]
    requires nets[i].len > 0 ==> forall k :: 0 <= k < |nets| && k != i && !used[k] ==> nets[k] != Sibling(nets[i])
    requires used' == if nets[i].len == 0 then used else used[i := true]
    ensures PassState(nets, used, i, merged, changed) ==> PassState(nets, used', i + 1, merged + [nets[i]], changed)
  {
    hide SaysTheSame, OnlyCopied, Pending, NoDuplicates, Sibling;
    if PassState(nets, used, i, merged, changed) {
      KeepSays(nets, used, i, merged, used');
      if !changed {
        KeepCopies(nets, used, i, merged, used');
      }
    }
  }

  lemma MergeSays(nets: seq<Cidr>, used: seq<bool>, i: nat, merged: seq<Cidr>, j: nat)
    requires |used| == |nets| && i < j < |nets| && NoDuplicates(nets)
    requires SaysTheSame(nets, used, i, merged) && !used[i] && !used[j]
    requires Aligned(nets[i]) && nets[i].len > 0 && nets[j] == Sibling(nets[i])
    ensures SaysTheSame(nets, used[i := true][j := true], i + 1, merged + [Parent(nets[i])])
    ensures |Pending(nets, used[i := true][j := true], i + 1)| == |Pending(nets, used, i)| - 2
  {
    hide Reduced, Sibling, Parent, Aligned;
    var c, s := nets[i], nets[j];
    var used' := used[i := true][j := true];
    PendingPair(nets, used, used', i, j);
    ElementsPush(merged, Parent(c));
    assert c in Pending(nets, used, i) && s in Pending(nets, used, i);
    assert c != s;
    hide Pending, Elements, NoDuplicates;
    var was := Elements(merged) + Pending(nets, used, i);
    var now := Elements(merged + [Parent(c)]) + Pending(nets, used', i + 1);
    MergePair(was, Elements(nets), c, was - {c, s} + {Parent(c)});
    assert now == was - {c, s} + {Parent(c)};
  }

  lemma PassMerge(nets: seq<Cidr>, used: seq<bool>, i: nat, merged: seq<Cidr>, changed: bool, j: nat)
    requires |used| == |nets| && i < |nets| && Sorted(nets) && !used[i]
    requires nets[i].len > 0 && j < |nets| && j != i && !used[j] && nets[j] == Sibling(nets[i])
    ensures PassState(nets, used, i, merged, changed) ==>
      PassState(nets, used[i := true][j := true], i + 1, merged + [Parent(nets[i])], true)
  {
    hide SaysTheSame, OnlyCopied, Pending, NetworkAddr, Or, BlockSize, Less, NoDuplicates, Aligned;
    if PassState(nets, used, i, merged, changed) {
      SiblingKeepsLength(nets[i]);
      assert i < j;
      SortedNoDuplicates(nets);
      assert Less(nets[i], nets[j]);
      SiblingAheadIsAligned(nets[i]);
      MergeSays(nets, used, i, merged, j);
    }
  }

  lemma SiblingKeepsLength(c: Cidr)
    ensures c.len > 0 ==> Sibling(c).len == c.len
  {}

  lemma PassEnd(nets: seq<Cidr>, used: seq<bool>, merged: seq<Cidr>, changed: bool)
    requires |used| == |nets| && Sorted(nets)
    requires PassState(nets, used, |nets|, merged, changed)
    ensures Reduced(Elements(merged), Elements(nets))
    ensures |merged| + (if changed then 1 else 0) <= |nets|
    ensures !changed ==> Elements(merged) == Elements(nets) && SiblingFree(AlignedIn(Elements(nets)))
  {
    hide Contains, In, Reduced, NetworkAddr, Or, BlockSize;
    assert Elements(merged) + Pending(nets, used, |nets|) == Elements(merged);
    if !changed {
      assert nets[..|nets|] == nets;
      forall c | c in AlignedIn(Elements(nets)) && c.len > 0 ensures Sibling(c) !in nets {
        SiblingAligned(c);
        var k :| 0 <= k < |nets| && nets[k] == c;
        forall j | 0 <= j < |nets| ensures nets[j] != Sibling(c) {
          assert j < k && nets[j].len > 0 ==> nets[k] != Sibling(nets[j]);
        }
      }
    }
  }

  /** One pass over a sorted list: every entry whose sibling is still unused takes it up into their
      parent. A pass that merges nothing shows the list to be free of sibling pairs. */
  method MergePass(nets: seq<Cidr>) returns (merged: seq<Cidr>, changed: bool)
    requires Sorted(nets) && Antichain(AlignedIn(Elements(nets)))
    ensures Reduced(Elements(merged), Elements(nets))
    ensures |merged| + (if changed then 1 else 0) <= |nets|
    ensures !changed ==> Elements(merged) == Elements(nets) && SiblingFree(AlignedIn(Elements(nets)))
  {
    hide Aligned, Contains, In, Reduced, PassState, Sibling, Parent;
    SortedNoDuplicates(nets);
    merged := [];
    var used := new bool[|nets|](_ => false);
    changed := false;
    PassStart(nets, used[..]);
    for i := 0 to |nets|
      invariant PassState(nets, used[..], i, merged, changed)
    {
      ghost var before := used[..];
      if used[i] {
        PassSkip(nets, before, i, merged, changed);
        continue;
      }
      var c := nets[i];
      if c.len == 0 {
        PassKeep(nets, before, i, merged, changed, before);
        merged := merged + [c];
        continue;
      }
      var sibling := Sibling(c);
      var j := FindUnused(nets, used, i, sibling);
      if j < |nets| {
        PassMerge(nets, before, i, merged, changed, j);
        used[i] := true;
        used[j] := true;
        assert used[..] == before[i := true][j := true];
        merged := merged + [Parent(c)];
        changed := true;
      } else {
        PassKeep(nets, before, i, merged, changed, before[i := true]);
        used[i] := true;
        assert used[..] == before[i := true];
        merged := merged + [c];
      }
    }
    PassEnd(nets, used[..], merged, changed);
  }

  // ---- collapse ----

  /** The entries `collapse` gives back for `nets`: the canonical form of what the aligned entries
      cover, and the unaligned entries that no larger aligned entry subsumes. */
  ghost predicate CollapsesTo(nets: set<Cidr>, out: set<Cidr>) {
    && Canonical(AlignedIn(out))
    && Covered(AlignedIn(out)) == Covered(AlignedIn(nets))
    && UnalignedIn(out) == set c | c in nets && !Aligned(c) && !Subsumed(c, nets)
  }

  method Collapse(input: seq<Cidr>) returns (deduped: seq<Cidr>)
    ensures Sorted(deduped)
    ensures CollapsesTo(Elements(input), Elements(deduped))
  {
    hide Aligned, Contains, In, Sibling, Less, Subsumed;
    var nets := SortDedup(input);
    deduped := [];
    for k := 0 to |nets|
      invariant Elements(deduped) == set c | c in nets[..k] && !Subsumed(c, Elements(nets))
    {
      assert nets[..k + 1] == nets[..k] + [nets[k]];
      if !Subsumed(nets[k], Elements(nets)) {
        ElementsPush(deduped, nets[k]);
        deduped := deduped + [nets[k]];
      }
    }
    assert nets[..|nets|] == nets;
    deduped := SortDedup(deduped);
    ghost var kept := Elements(deduped);
    assert kept == set c | c in Elements(nets) && !Subsumed(c, Elements(nets));
    DropSubsumed(Elements(nets), kept);
    var changed := true;
    while changed
      invariant Sorted(deduped) && Reduced(Elements(deduped), kept)
      invariant !changed ==> SiblingFree(AlignedIn(Elements(deduped)))
      decreases |deduped|, changed
    {
      var merged;
      merged, changed := MergePass(deduped);
      deduped := SortDedup(merged);
    }
    CollapseDone(Elements(nets), kept, Elements(deduped));
  }

  lemma CollapseDone(nets: set<Cidr>, kept: set<Cidr>, out: set<Cidr>)
    requires kept == set c | c in nets && !Subsumed(c, nets)
    requires Covered(AlignedIn(kept)) == Covered(AlignedIn(nets))
    requires Reduced(out, kept) && SiblingFree(AlignedIn(out))
    ensures CollapsesTo(nets, out)
  {
    hide Contains, In, Sibling, NetworkAddr;
  }

  /** `collapse` keeps the covered addresses, whatever its input. */
  lemma CollapseCovers(nets: set<Cidr>, out: set<Cidr>)
    requires CollapsesTo(nets, out)
    ensures Covered(out) == Covered(nets)
  {
    hide NetworkAddr, In;
    forall a | InAny(a, nets) ensures InAny(a, out) {
      var n :| n in nets && In(a, n);
      if Aligned(n) || Subsumed(n, nets) {
        var m := n;
        if !Aligned(n) {
          m :| m in nets && Contains(m, n);
          ContainsBlock(m, n, a);
        }
        assert m in AlignedIn(nets);
        assert a in Covered(AlignedIn(out));
        var c :| c in AlignedIn(out) && In(a, c);
      } else {
        assert n in UnalignedIn(out);
      }
    }
    forall a | InAny(a, out) ensures InAny(a, nets) {
      var c :| c in out && In(a, c);
      if Aligned(c) {
        assert c in AlignedIn(out);
        assert a in Covered(AlignedIn(nets));
        var n :| n in AlignedIn(nets) && In(a, n);
      } else {
        assert c in UnalignedIn(out);
      }
    }
  }

  /** Every entry with host bits set is subsumed by a larger one, which has none. */
  ghost predicate Tame(nets: set<Cidr>) {
    forall c :: c in nets && !Aligned(c) ==> Subsumed(c, nets)
  }

  /** It gives the canonical form exactly when every entry with host bits set is subsumed by a larger
      aligned entry; in particular whenever all entries are aligned. */
  lemma CollapseCanonicalIff(nets: set<Cidr>, out: set<Cidr>)
    requires CollapsesTo(nets, out)
    ensures Canonical(out) <==> Tame(nets)
  {
    hide Contains, In, Sibling, NetworkAddr;
    if UnalignedIn(out) == {} {
      forall c | c in out ensures Aligned(c) {
        assert Aligned(c) || c in UnalignedIn(out);
      }
      assert AlignedIn(out) == out;
    }
    assert Canonical(out) ==> UnalignedIn(out) == {};
    forall c | c in nets && !Aligned(c) && !Subsumed(c, nets) ensures c in UnalignedIn(out) {}
  }

  /** Host bits set: 0.0.0.1/31 stays what it is, and is no canonical form. */
  lemma HostBitsExample(out: set<Cidr>)
    requires CollapsesTo({Cidr(1, 31)}, out)
    ensures !Canonical(out)
  {
    assert !Aligned(Cidr(1, 31));
    CollapseCanonicalIff({Cidr(1, 31)}, out);
  }

  lemma TameCollapse(nets: set<Cidr>, out: set<Cidr>)
    requires Tame(nets) && CollapsesTo(nets, out)
    ensures Canonical(out) && Covered(out) == Covered(nets)
  {
    hide CollapsesTo, Canonical, Covered, Tame;
    CollapseCovers(nets, out);
    CollapseCanonicalIff(nets, out);
  }

  /** Lists that cover the same addresses, and whose host bits are all subsumed, collapse to the same list. */
  lemma CollapseIsCanonicalForm(nets: set<Cidr>, out: seq<Cidr>, nets': set<Cidr>, out': seq<Cidr>)
    requires Tame(nets) && Tame(nets') && Covered(nets) == Covered(nets')
    requires Sorted(out) && CollapsesTo(nets, Elements(out))
    requires Sorted(out') && CollapsesTo(nets', Elements(out'))
    ensures out == out'
  {
    hide CollapsesTo, Canonical, Covered, Sorted, Tame;
    TameCollapse(nets, Elements(out));
    TameCollapse(nets', Elements(out'));
    CanonicalIsUnique(Elements(out), Elements(out'));
    SortedIsUnique(out, out');
  }

  lemma {:induction false} DistinctCount(nets: seq<Cidr>)
    requires NoDuplicates(nets)
    ensures |Elements(nets)| == |nets|
  {
    if nets == [] {
    } else {
      var front, last := nets[..|nets| - 1], nets[|nets| - 1];
      DistinctCount(front);
      ElementsPush(front, last);
      assert nets == front + [last];
      assert last !in front;
    }
  }

  /** No list of prefixes that covers the same addresses, aligned or not, is shorter. */
  lemma CollapseIsFewest(nets: set<Cidr>, out: seq<Cidr>, others: seq<Cidr>)
    requires Tame(nets)
    requires Sorted(out) && CollapsesTo(nets, Elements(out))
    requires Covered(Elements(others)) == Covered(nets)
    ensures |out| <= |others|
  {
    hide CollapsesTo, Canonical, Covered, Sorted, Tame;
    TameCollapse(nets, Elements(out));
    SortedNoDuplicates(out);
    DistinctCount(out);
    CanonicalIsFewest(Elements(out), Elements(others));
    ElementsCount(others);
  }

  /** Nor does any other list say `net` without `exclude` in fewer prefixes than `address_exclude`. */
  lemma ExcludeIsFewest(net: Cidr, exclude: Cidr, out: seq<Cidr>, others: seq<Cidr>)
    requires IsMaximalBlocks(Elements(out), Block(net) - Block(exclude)) && NoDuplicates(out)
    requires Covered(Elements(others)) == Block(net) - Block(exclude)
    ensures |out| <= |others|
  {
    hide Canonical, Covered, Maximal, In;
    MaximalIsCanonical(Elements(out), Block(net) - Block(exclude));
    DistinctCount(out);
    CanonicalIsFewest(Elements(out), Elements(others));
    ElementsCount(others);
  }
}
