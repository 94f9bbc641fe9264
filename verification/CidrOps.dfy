/** `address_exclude`, loop by loop, against the address sets of `Blocks`. */
module CidrOps {
  import opened Blocks
  import opened Cidrs
  import opened Lists
  import opened Words

  function Elements(nets: seq<Cidr>): set<Cidr> {
    set c | c in nets
  }

  // ---- address_exclude ----

  /** Maximal blocks that cover a set are all its maximal blocks. */
  lemma CoverOfMaximal(nets: set<Cidr>, addrs: iset<bv32>)
    requires forall c :: c in nets ==> Maximal(c, addrs)
    requires Covered(nets) == addrs
    ensures IsMaximalBlocks(nets, addrs)
  {
    hide In, Contains, Aligned, Parent;
    forall c | Maximal(c, addrs) ensures c in nets {
      NetworkSameBlock(c, c.addr);
      assert c.addr in Block(c);
      var p :| p in nets && In(c.addr, p);
      assert c.addr in Block(p);
      Nested(c, p);
      if Contains(p, c) {
        MaximalIsTop(c, p, addrs);
      } else {
        MaximalIsTop(p, c, addrs);
      }
    }
  }

  /** The half of `current` that does not hold `exclude`, and the half that does. */
  lemma HalvesOf(current: Cidr, exclude: Cidr)
    requires Contains(current, exclude) && current.len < exclude.len
    ensures var lower := Cidr(current.addr, current.len + 1);
      var upper := Cidr(WrappingAdd(current.addr, BlockSize(current.len + 1)), current.len + 1);
      && Aligned(lower) && Aligned(upper) && Parent(lower) == current == Parent(upper)
      && Block(current) == Block(lower) + Block(upper) && Block(lower) !! Block(upper)
      && (Contains(lower, exclude) || Contains(upper, exclude))
  {
    hide NetworkAddr, Or, BlockSize, WrappingAdd, In;
    ContainsBlock(current, exclude, exclude.addr);
    LowerIsHalf(current);
    var lower := Lower(current);
    WrappingAddIsUpper(current);
    SiblingAligned(lower);
    ParentSplits(lower);
    NetworkSameBlock(exclude, exclude.addr);
    assert exclude.addr in Block(current);
    if exclude.addr in Block(lower) {
      Laminar(lower, exclude, exclude.addr);
    } else {
      Laminar(Sibling(lower), exclude, exclude.addr);
    }
  }

  /** One piece `address_exclude` may produce: a half, whose other half holds `exclude`. */
  ghost predicate IsPiece(piece: Cidr, net: Cidr, exclude: Cidr) {
    && Aligned(piece) && piece.len > 0
    && Contains(net, Parent(piece))
    && Contains(Parent(piece), exclude)
    && Block(piece) !! Block(exclude)
  }

  lemma PieceIsMaximal(piece: Cidr, net: Cidr, exclude: Cidr)
    requires IsPiece(piece, net, exclude)
    ensures Maximal(piece, Block(net) - Block(exclude))
  {
    hide In, Contains, Aligned, Parent;
    ParentSplits(piece);
    ContainsIsSubset(net, Parent(piece));
    ContainsIsSubset(Parent(piece), exclude);
    NetworkSameBlock(exclude, exclude.addr);
    assert exclude.addr in Block(exclude);
  }

  lemma SameLength(c: Cidr, d: Cidr)
    requires Contains(c, d) && c.len == d.len
    ensures c == Network(d) && Block(c) == Block(d)
  {
    hide NetworkAddr, In;
    forall a ensures In(a, c) <==> In(a, d) {
      NetworkSameBlock(d, a);
    }
  }

  lemma CoveredPush(out: seq<Cidr>, piece: Cidr)
    ensures Covered(Elements(out + [piece])) == Covered(Elements(out)) + Block(piece)
  {
    hide In;
    assert Elements(out + [piece]) == Elements(out) + {piece};
    forall a ensures InAny(a, Elements(out) + {piece}) <==> InAny(a, Elements(out)) || In(a, piece) {
      assert piece in Elements(out) + {piece};
    }
  }

  /** One turn of the loop: `piece` is the half without `exclude`, `rest` the half with it. */
  lemma ExcludeStep(out: seq<Cidr>, piece: Cidr, rest: Cidr, net: Cidr, current: Cidr, exclude: Cidr)
    requires Contains(net, current) && Contains(current, exclude)
    requires Aligned(piece) && Aligned(rest) && piece.len > 0 && rest.len > 0
    requires Parent(piece) == current == Parent(rest)
    requires Block(current) == Block(piece) + Block(rest) && Block(piece) !! Block(rest)
    requires Contains(rest, exclude)
    requires Covered(Elements(out)) + Block(current) == Block(net)
    ensures IsPiece(piece, net, exclude)
    ensures Contains(net, rest)
    ensures Covered(Elements(out + [piece])) + Block(rest) == Block(net)
  {
    hide NetworkAddr, In;
    ContainsIsSubset(rest, exclude);
    CoveredPush(out, piece);
    ParentContains(rest);
    ContainsTrans(net, current, rest);
  }

  /** Splits `net` around `exclude`: the result is the maximal blocks of the difference, one for each
      bit by which `exclude` is longer. */
  method AddressExclude(net: Cidr, exclude: Cidr) returns (out: seq<Cidr>)
    requires Contains(net, exclude)
    ensures IsMaximalBlocks(Elements(out), Block(net) - Block(exclude))
    ensures NoDuplicates(out)
    ensures |out| == exclude.len - net.len
  {
    hide In, NetworkAddr, Or, BlockSize, WrappingAdd;
    ContainsBlock(net, exclude, exclude.addr);
    if net.len >= exclude.len {
      SameLength(net, exclude);
      CoverOfMaximal({}, Block(net) - Block(exclude));
      return [];
    }
    ContainsSelf(net);
    out := [];
    var current := net;
    while current.len < exclude.len
      invariant Aligned(current) && Contains(net, current) && Contains(current, exclude)
      invariant |out| == current.len - net.len
      invariant forall i :: 0 <= i < |out| ==> out[i].len == net.len + 1 + i
      invariant forall i :: 0 <= i < |out| ==> IsPiece(out[i], net, exclude)
      invariant Covered(Elements(out)) + Block(current) == Block(net)
    {
      var childLen := current.len + 1;
      var halfSize := BlockSize(childLen);
      var lower := Cidr(current.addr, childLen);
      var upper := Cidr(WrappingAdd(current.addr, halfSize), childLen);
      HalvesOf(current, exclude);
      if Contains(lower, exclude) {
        ExcludeStep(out, upper, lower, net, current, exclude);
        out := out + [upper];
        current := lower;
      } else {
        ExcludeStep(out, lower, upper, net, current, exclude);
        out := out + [lower];
        current := upper;
      }
    }
    SameLength(current, exclude);
    PiecesAreMaximal(out, net, exclude);
  }

  lemma PiecesAreMaximal(out: seq<Cidr>, net: Cidr, exclude: Cidr)
    requires forall i :: 0 <= i < |out| ==> IsPiece(out[i], net, exclude)
    requires Covered(Elements(out)) + Block(exclude) == Block(net)
    ensures IsMaximalBlocks(Elements(out), Block(net) - Block(exclude))
  {
    hide In, Contains, Aligned, Parent;
    var addrs := Block(net) - Block(exclude);
    forall c | c in Elements(out) ensures Maximal(c, addrs) {
      PieceIsMaximal(c, net, exclude);
    }
    CoverOfMaximal(Elements(out), addrs);
  }
}
