/** JSON Merge Patch, section 2 of RFC 7386, on unordered objects: the reference the ordered merge is
    held to. */
module Json {

  datatype Json =
    | JNull
    | JText(text: string)
    | JScalar(repr: string)
    | JArray(items: seq<Json>)
    | JObject(members: map<string, Json>)

  function MembersOf(target: Json): map<string, Json> {
    if target.JObject? then target.members else map[]
  }

  function MemberOr(members: map<string, Json>, key: string): Json {
    if key in members then members[key] else JNull
  }

  function MergePatch(target: Json, patch: Json): Json
    decreases patch
  {
    if !patch.JObject? then patch
    else
      var t := MembersOf(target);
      JObject(map k | k in t.Keys + patch.members.Keys && !(k in patch.members && patch.members[k].JNull?) ::
        if k in patch.members then MergePatch(MemberOr(t, k), patch.members[k]) else t[k])
  }

  /** Two patches say nothing different about any one place: where both write, both hold objects that
      agree in turn, or the same value. */
  ghost predicate Agree(p: Json, q: Json)
    decreases p
  {
    if p.JObject? && q.JObject? then
      forall k :: k in p.members && k in q.members ==> Agree(p.members[k], q.members[k])
    else p == q
  }

  lemma {:induction false} AgreeingCommute(t: Json, p: Json, q: Json)
    requires Agree(p, q)
    ensures MergePatch(MergePatch(t, p), q) == MergePatch(MergePatch(t, q), p)
    decreases p
  {
    if !p.JObject? || !q.JObject? {
    } else {
      var pq, qp := MergePatch(MergePatch(t, p), q), MergePatch(MergePatch(t, q), p);
      forall k ensures k in pq.members <==> k in qp.members
      ensures k in pq.members ==> pq.members[k] == qp.members[k]
      {
        if k in p.members && k in q.members {
          AgreeingCommute(MemberOr(MembersOf(t), k), p.members[k], q.members[k]);
        }
      }
      assert pq.members == qp.members;
    }
  }

  /** A target the two orders tell apart. */
  lemma {:induction false} DisagreeingDiffer(p: Json, q: Json) returns (t: Json)
    requires !Agree(p, q)
    ensures MergePatch(MergePatch(t, p), q) != MergePatch(MergePatch(t, q), p)
    decreases p
  {
    if p.JObject? && q.JObject? {
      var k :| k in p.members && k in q.members && !Agree(p.members[k], q.members[k]);
      var inner := DisagreeingDiffer(p.members[k], q.members[k]);
      t := JObject(map[k := inner]);
      var pq, qp := MergePatch(MergePatch(t, p), q), MergePatch(MergePatch(t, q), p);
      assert MemberOr(MembersOf(t), k) == inner;
      assert k in pq.members && k in qp.members ==> pq.members[k] != qp.members[k];
      assert k in pq.members || k in qp.members;
    } else {
      t := JNull;
    }
  }

  /** Patches can be applied in either order to every target exactly when they agree. */
  lemma CommuteIffAgree(p: Json, q: Json)
    ensures (forall t :: MergePatch(MergePatch(t, p), q) == MergePatch(MergePatch(t, q), p)) <==> Agree(p, q)
  {
    if Agree(p, q) {
      forall t {
        AgreeingCommute(t, p, q);
      }
    } else {
      var t := DisagreeingDiffer(p, q);
    }
  }

  // ---- Many patches ----

  function Applied(t: Json, patches: seq<Json>): Json {
    if patches == [] then t
    else MergePatch(Applied(t, patches[..|patches| - 1]), patches[|patches| - 1])
  }

  ghost predicate AllAgree(patches: seq<Json>) {
    forall p, q :: p in patches && q in patches ==> Agree(p, q)
  }

  /** Moving one patch to the end. */
  lemma {:induction false} ApplyLast(t: Json, patches: seq<Json>, i: nat)
    requires i < |patches| && AllAgree(patches)
    ensures Applied(t, patches) == MergePatch(Applied(t, patches[..i] + patches[i + 1..]), patches[i])
  {
    hide MergePatch, Agree;
    var n := |patches| - 1;
    var front := patches[..n];
    var without := patches[..i] + patches[i + 1..];
    if i == n {
      assert without == front;
    } else {
      ApplyLast(t, front, i);
      var inner := front[..i] + front[i + 1..];
      assert without[..n - 1] == inner;
      assert without[n - 1] == patches[n];
      assert patches[i] in patches && patches[n] in patches;
      AgreeingCommute(Applied(t, inner), patches[i], patches[n]);
    }
  }

  lemma {:induction false} TakeOutLast<T>(xs: seq<T>, ys: seq<T>) returns (i: nat)
    requires xs != [] && multiset(xs) == multiset(ys)
    ensures i < |ys| && ys[i] == xs[|xs| - 1]
    ensures multiset(xs[..|xs| - 1]) == multiset(ys[..i] + ys[i + 1..])
    ensures forall y :: y in ys ==> y in xs
  {
    var n := |xs| - 1;
    assert xs == xs[..n] + [xs[n]];
    assert xs[n] in multiset(xs);
    i :| 0 <= i < |ys| && ys[i] == xs[n];
    assert multiset(ys) == multiset(ys[..i] + ys[i + 1..]) + multiset{ys[i]} by {
      assert ys == ys[..i] + [ys[i]] + ys[i + 1..];
    }
    assert multiset(xs[..n]) == multiset(xs) - multiset{xs[n]};
    forall y | y in ys ensures y in xs {
      assert y in multiset(ys);
    }
  }

  /** Patches that all agree give one result in any order. */
  lemma {:induction false} AnyOrder(t: Json, ps: seq<Json>, qs: seq<Json>)
    requires multiset(ps) == multiset(qs) && AllAgree(ps)
    ensures Applied(t, ps) == Applied(t, qs)
    decreases |ps|
  {
    if ps == [] {
      assert |multiset(qs)| == 0;
    } else {
      hide MergePatch, Agree;
      var i := TakeOutLast(ps, qs);
      ApplyLast(t, qs, i);
      AnyOrder(t, ps[..|ps| - 1], qs[..i] + qs[i + 1..]);
    }
  }

  // ---- Nulls in a base ----

  /** Not null, and no null under it that a patch would act on. */
  ghost predicate Solid(v: Json) {
    !v.JNull? && (v.JObject? ==> forall k :: k in v.members ==> Solid(v.members[k]))
  }

  /** A document read as a patch over nothing is itself exactly when it has no null to lose. */
  lemma {:induction false} PatchOverNothing(p: Json)
    ensures MergePatch(JNull, p) == p <==> (p.JNull? || Solid(p))
  {
    if !p.JObject? {
    } else {
      var r := MergePatch(JNull, p);
      forall k | k in p.members
        ensures k in r.members && r.members[k] == p.members[k] <==> Solid(p.members[k])
      {
        PatchOverNothing(p.members[k]);
      }
      assert r.members.Keys <= p.members.Keys;
      if forall k :: k in p.members ==> Solid(p.members[k]) {
        assert r.members == p.members;
      }
    }
  }

  /** Every null of either document is one the other says too. */
  ghost predicate NullsAreShared(p: Json, q: Json)
    requires p.JObject? && q.JObject?
    decreases p
  {
    && (forall k :: k in p.members && k !in q.members ==> Solid(p.members[k]))
    && (forall k :: k in q.members && k !in p.members ==> Solid(q.members[k]))
    && (forall k :: k in p.members && k in q.members && p.members[k].JObject? && q.members[k].JObject? ==>
      NullsAreShared(p.members[k], q.members[k]))
  }

  /** One document over the other is the same either way round exactly when every null is shared: the
      base's own nulls stay, an overlay's do not. */
  lemma {:induction false} SwapIff(p: Json, q: Json)
    requires p.JObject? && q.JObject? && Agree(p, q)
    ensures MergePatch(p, q) == MergePatch(q, p) <==> NullsAreShared(p, q)
    decreases p
  {
    var pq, qp := MergePatch(p, q), MergePatch(q, p);
    forall k | k in p.members.Keys + q.members.Keys
      ensures ((k in pq.members <==> k in qp.members) && (k in pq.members ==> pq.members[k] == qp.members[k]))
        <==> SharedAt(p, q, k)
    {
      if k in p.members && k in q.members {
        assert Agree(p.members[k], q.members[k]);
        if p.members[k].JObject? && q.members[k].JObject? {
          SwapIff(p.members[k], q.members[k]);
        }
      } else if k in p.members {
        PatchOverNothing(p.members[k]);
      } else {
        PatchOverNothing(q.members[k]);
      }
    }
    assert NullsAreShared(p, q) <==> forall k :: k in p.members.Keys + q.members.Keys ==> SharedAt(p, q, k);
    if NullsAreShared(p, q) {
      assert pq.members.Keys == qp.members.Keys;
      assert pq.members == qp.members;
    }
  }

  /** A null of the base stays, the same null in an overlay does not. */
  lemma NullInFirstExample()
    ensures var p, q := JObject(map["a" := JNull]), JObject(map["b" := JText("1")]);
      Agree(p, q) && MergePatch(p, q) != MergePatch(q, p)
  {
    var p, q := JObject(map["a" := JNull]), JObject(map["b" := JText("1")]);
    assert "a" in MergePatch(p, q).members && "a" !in MergePatch(q, p).members;
  }

  ghost predicate SharedAt(p: Json, q: Json, k: string)
    requires p.JObject? && q.JObject?
  {
    && (k in p.members && k !in q.members ==> Solid(p.members[k]))
    && (k in q.members && k !in p.members ==> Solid(q.members[k]))
    && (k in p.members && k in q.members && p.members[k].JObject? && q.members[k].JObject? ==>
      NullsAreShared(p.members[k], q.members[k]))
  }
}
