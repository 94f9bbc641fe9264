/** The address sets that lists of prefixes denote. The canonical form of a set - aligned prefixes,
    none inside another, no two that are the halves of one parent - is exactly the set of its maximal
    aligned blocks: every address set has one, it determines it, and nothing shorter covers the set. */
module Blocks {
  import opened Cidrs
  import opened Words

  ghost function Block(c: Cidr): iset<bv32> {
    iset a | In(a, c)
  }

  ghost function Covered(nets: set<Cidr>): iset<bv32> {
    iset a | InAny(a, nets)
  }

  ghost predicate InAny(a: bv32, nets: set<Cidr>) {
    exists c :: c in nets && In(a, c)
  }

  /** An aligned block inside `addrs` whose parent is not. */
  ghost predicate Maximal(c: Cidr, addrs: iset<bv32>) {
    && Aligned(c)
    && Block(c) <= addrs
    && (c.len > 0 ==> !(Block(Parent(c)) <= addrs))
  }

  ghost predicate AllAligned(nets: set<Cidr>) {
    forall c :: c in nets ==> Aligned(c)
  }

  ghost predicate Antichain(nets: set<Cidr>) {
    forall c, d :: c in nets && d in nets && Contains(c, d) ==> c == d
  }

  ghost predicate SiblingFree(nets: set<Cidr>) {
    forall c :: c in nets && c.len > 0 ==> Sibling(c) !in nets
  }

  ghost predicate Canonical(nets: set<Cidr>) {
    AllAligned(nets) && Antichain(nets) && SiblingFree(nets)
  }

  ghost predicate IsMaximalBlocks(nets: set<Cidr>, addrs: iset<bv32>) {
    forall c :: c in nets <==> Maximal(c, addrs)
  }

  // ---- Blocks as sets ----

  lemma ContainsIsSubset(c: Cidr, d: Cidr)
    requires Contains(c, d)
    ensures Block(d) <= Block(c)
  {
    hide In, Contains;
    forall a | In(a, d) ensures In(a, c) {
      ContainsBlock(c, d, a);
    }
  }

  lemma ParentInside(c: Cidr, d: Cidr)
    requires Contains(c, d) && c.len < d.len
    ensures Contains(c, Parent(d)) && Block(Parent(d)) <= Block(c)
  {
    hide In, Contains, Parent;
    ContainsParent(c, d);
    ContainsIsSubset(c, Parent(d));
  }

  lemma LargerBlock(c: Cidr, d: Cidr)
    requires Aligned(d) && Contains(c, d) && c.len < d.len
    ensures !(Block(c) <= Block(d))
  {
    hide In, Contains, Aligned, Sibling, Parent;
    ParentInside(c, d);
    SiblingAligned(d);
    var other := Sibling(d).addr;
    NetworkSameBlock(Sibling(d), other);
    SiblingSplits(d, other);
    assert other in Block(Parent(d)) && other !in Block(d);
  }

  lemma SubsetIsContains(c: Cidr, d: Cidr)
    requires Aligned(c) && Aligned(d) && Block(d) <= Block(c)
    ensures Contains(c, d)
  {
    hide In, Contains, Aligned;
    NetworkSameBlock(d, d.addr);
    assert d.addr in Block(d);
    if c.len <= d.len {
      Laminar(c, d, d.addr);
    } else {
      Laminar(d, c, d.addr);
      LargerBlock(d, c);
      assert false;
    }
  }

  lemma ParentSplits(c: Cidr)
    requires Aligned(c) && c.len > 0
    ensures Block(Parent(c)) == Block(c) + Block(Sibling(c))
    ensures Block(c) !! Block(Sibling(c))
  {
    hide In, Aligned, Parent, Sibling;
    forall a
      ensures In(a, Parent(c)) <==> In(a, c) || In(a, Sibling(c))
      ensures !(In(a, c) && In(a, Sibling(c)))
    {
      SiblingSplits(c, a);
    }
  }

  /** Two aligned blocks that meet are nested. */
  lemma Nested(c: Cidr, d: Cidr)
    requires Aligned(c) && Aligned(d)
    ensures Contains(c, d) || Contains(d, c) || Block(c) !! Block(d)
  {
    hide In, Contains, Aligned;
    if a :| a in Block(c) && a in Block(d) {
      if c.len <= d.len {
        Laminar(c, d, a);
      } else {
        Laminar(d, c, a);
      }
    }
  }

  // ---- The canonical form ----

  /** A proper superblock of an aligned prefix also holds its parent. */
  lemma AboveMeansParent(d: Cidr, c: Cidr)
    requires Aligned(c) && c.len > 0 && Contains(d, c)
    ensures d == c || Contains(d, Parent(c))
  {
    hide NetworkAddr;
    if d.len < c.len {
      ContainsParent(d, c);
    }
  }

  ghost function Lower(c: Cidr): Cidr
    requires c.len < 32
  {
    Cidr(c.addr, c.len + 1)
  }

  lemma LowerIsHalf(c: Cidr)
    requires Aligned(c) && c.len < 32
    ensures Aligned(Lower(c)) && Parent(Lower(c)) == c
  {
    hide NetworkAddr;
    NetworkNests(c.addr, c.len, c.len + 1);
  }

  /** No sibling pair: an aligned block inside the union lies inside one single member. */
  lemma {:induction false} WithinOne(nets: set<Cidr>, q: Cidr) returns (p: Cidr)
    requires AllAligned(nets) && SiblingFree(nets)
    requires Aligned(q) && Block(q) <= Covered(nets)
    ensures p in nets && Contains(p, q)
    decreases 32 - q.len
  {
    hide In, Contains, Aligned, Parent, Sibling;
    if q.len == 32 {
      NetworkSameBlock(q, q.addr);
      assert q.addr in Block(q);
      p :| p in nets && In(q.addr, p);
      Laminar(p, q, q.addr);
    } else {
      LowerIsHalf(q);
      var lower := Lower(q);
      var upper := Sibling(lower);
      SiblingAligned(lower);
      ParentSplits(lower);
      p := WithinOne(nets, lower);
      var p' := WithinOne(nets, upper);
      AboveMeansParent(p, lower);
      AboveMeansParent(p', upper);
      if p == lower {
        p := p';
      }
    }
  }

  /** A maximal block has no proper superblock inside the set. */
  lemma MaximalIsTop(c: Cidr, p: Cidr, addrs: iset<bv32>)
    requires Maximal(c, addrs) && Aligned(p) && Contains(p, c) && Block(p) <= addrs
    ensures p == c
  {
    hide In, NetworkAddr;
    if p.len < c.len {
      ParentInside(p, c);
    }
  }

  lemma MemberIsMaximal(nets: set<Cidr>, c: Cidr)
    requires Canonical(nets) && c in nets
    ensures Maximal(c, Covered(nets))
  {
    hide NetworkAddr, Or, BlockSize, In;
    if c.len > 0 && Block(Parent(c)) <= Covered(nets) {
      SiblingAligned(c);
      var p := WithinOne(nets, Parent(c));
      ContainsTrans(p, Parent(c), c);
      assert false;
    }
  }

  /** A canonical list is exactly the list of the maximal blocks of its union. */
  lemma CanonicalIsMaximal(nets: set<Cidr>)
    requires Canonical(nets)
    ensures IsMaximalBlocks(nets, Covered(nets))
  {
    hide In, Contains, Aligned, Parent, Sibling;
    forall c | c in nets ensures Maximal(c, Covered(nets)) {
      MemberIsMaximal(nets, c);
    }
    forall c | Maximal(c, Covered(nets)) ensures c in nets {
      var p := WithinOne(nets, c);
      ContainsIsSubset(p, c);
      assert Block(p) <= Covered(nets);
      MaximalIsTop(c, p, Covered(nets));
    }
  }

  /** Every aligned block of a set lies inside one of its maximal blocks. */
  lemma {:induction false} Climb(c: Cidr, addrs: iset<bv32>) returns (m: Cidr)
    requires Aligned(c) && Block(c) <= addrs
    ensures Maximal(m, addrs) && Contains(m, c)
    decreases c.len
  {
    hide NetworkAddr, Or, BlockSize, In;
    if c.len > 0 && Block(Parent(c)) <= addrs {
      SiblingAligned(c);
      m := Climb(Parent(c), addrs);
      ContainsTrans(m, Parent(c), c);
    } else {
      m := c;
    }
  }

  /** The maximal blocks of a set are canonical, and they cover it. */
  lemma MaximalIsCanonical(nets: set<Cidr>, addrs: iset<bv32>)
    requires IsMaximalBlocks(nets, addrs)
    ensures Canonical(nets) && Covered(nets) == addrs
  {
    hide In, Contains, Aligned, Parent, Sibling;
    forall c, d | c in nets && d in nets && Contains(c, d) ensures c == d {
      MaximalIsTop(d, c, addrs);
    }
    forall c | c in nets && c.len > 0 ensures Sibling(c) !in nets {
      ParentSplits(c);
    }
    forall a | a in addrs ensures InAny(a, nets) {
      SingleAddress(a);
      var m := Climb(Cidr(a, 32), addrs);
      ContainsBlock(m, Cidr(a, 32), a);
    }
  }

  lemma SingleAddress(a: bv32)
    ensures Aligned(Cidr(a, 32)) && Block(Cidr(a, 32)) == iset{a}
  {
    hide And, Ones;
    forall x ensures NetworkAddr(x, 32) == x {
      AllOnesKeep(x);
    }
  }

  /** One address set has one canonical form. */
  lemma CanonicalIsUnique(nets: set<Cidr>, nets': set<Cidr>)
    requires Canonical(nets) && Canonical(nets') && Covered(nets) == Covered(nets')
    ensures nets == nets'
  {
    hide In, Contains, Aligned, Parent, Sibling;
    CanonicalIsMaximal(nets);
    CanonicalIsMaximal(nets');
  }

  // ---- Nothing shorter covers the set ----

  lemma {:induction false} InjectionCount<A, B>(xs: set<A>, ys: set<B>, f: map<A, B>)
    requires f.Keys == xs
    requires forall x :: x in xs ==> f[x] in ys
    requires forall x, y :: x in xs && y in xs && f[x] == f[y] ==> x == y
    ensures |xs| <= |ys|
  {
    if xs == {} {
    } else {
      var x :| x in xs;
      InjectionCount(xs - {x}, ys - {f[x]}, f - {x});
    }
  }

  ghost function Witness(others: set<Cidr>, p: Cidr): (q: Cidr)
    requires InAny(p.addr, others)
    ensures q in others && In(p.addr, q)
  {
    var q :| q in others && In(p.addr, q);
    q
  }

  /** A prefix of another cover that shares an address with a maximal block lies inside that block. */
  lemma CoverStaysInside(nets: set<Cidr>, p: Cidr, q: Cidr)
    requires Canonical(nets) && p in nets
    requires In(p.addr, q) && Block(q) <= Covered(nets)
    ensures Block(q) <= Block(p)
  {
    hide NetworkAddr, Or, BlockSize, In;
    var n := Network(q);
    NetworkSameBlock(q, p.addr);
    forall a ensures In(a, n) <==> In(a, q) {
      NetworkSameBlock(q, a);
    }
    var p' := WithinOne(nets, n);
    ContainsIsSubset(p', n);
    assert p.addr in Block(p');
    NetworkSameBlock(p, p.addr);
    Nested(p, p');
    assert p.addr in Block(p);
  }

  /** No set of prefixes, aligned or not, that covers the same addresses is smaller. */
  lemma CanonicalIsFewest(nets: set<Cidr>, others: set<Cidr>)
    requires Canonical(nets) && Covered(others) == Covered(nets)
    ensures |nets| <= |others|
  {
    hide In, Contains, Aligned, Parent, Sibling, Network;
    forall p | p in nets ensures InAny(p.addr, others) {
      NetworkSameBlock(p, p.addr);
      assert p.addr in Covered(nets);
    }
    var f := map p | p in nets :: Witness(others, p);
    forall p, p' | p in nets && p' in nets && f[p] == f[p'] ensures p == p' {
      assert Block(f[p]) <= Covered(others);
      CoverStaysInside(nets, p, f[p]);
      CoverStaysInside(nets, p', f[p']);
      assert p.addr in Block(f[p]);
      assert p.addr in Block(p) && p.addr in Block(p');
      Nested(p, p');
    }
    InjectionCount(nets, others, f);
  }
}
