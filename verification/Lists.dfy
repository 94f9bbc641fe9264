/** Lists without duplicates, sorting, and the order of texts. */
module Lists {

  ghost predicate NoDuplicates<T(!new)>(s: seq<T>) {
    forall i, j :: 0 <= i < j < |s| ==> s[i] != s[j]
  }

  predicate AtMost(a: string, b: string) {
    a == [] || (b != [] && (a[0] < b[0] || (a[0] == b[0] && AtMost(a[1..], b[1..]))))
  }

  lemma {:induction false} AtMostIsTotal(a: string, b: string)
    ensures AtMost(a, b) || AtMost(b, a)
    ensures AtMost(a, b) && AtMost(b, a) ==> a == b
  {
    if a == [] || b == [] || a[0] != b[0] {
    } else {
      AtMostIsTotal(a[1..], b[1..]);
      assert a == [a[0]] + a[1..] && b == [b[0]] + b[1..];
    }
  }

  lemma {:induction false} AtMostIsTransitive(a: string, b: string, c: string)
    requires AtMost(a, b) && AtMost(b, c)
    ensures AtMost(a, c)
  {
    if a == [] || a[0] != b[0] || b[0] != c[0] {
    } else {
      AtMostIsTransitive(a[1..], b[1..], c[1..]);
    }
  }

  /** At position `k` the texts differ for the first time, `a` having the lesser character there. */
  ghost predicate LessAt(a: string, b: string, k: nat) {
    k < |a| && k < |b| && a[..k] == b[..k] && a[k] < b[k]
  }

  /** The order of a dictionary: a text comes before what it begins, and before what has a greater character
      where the two first differ. */
  lemma {:induction false} AtMostMeans(a: string, b: string)
    ensures AtMost(a, b) <==> a <= b || exists k: nat :: LessAt(a, b, k)
  {
    if a == [] {
    } else if b == [] {
    } else {
      AtMostMeans(a[1..], b[1..]);
      if a[0] < b[0] {
        assert LessAt(a, b, 0);
      }
      if a[0] == b[0] {
        assert a <= b <==> a[1..] <= b[1..] by {
          assert a == [a[0]] + a[1..] && b == [b[0]] + b[1..];
        }
        if k: nat :| LessAt(a[1..], b[1..], k) {
          assert a[..k + 1] == [a[0]] + a[1..][..k] && b[..k + 1] == [b[0]] + b[1..][..k];
          assert LessAt(a, b, k + 1);
        }
      }
      if k: nat :| LessAt(a, b, k) {
        if k > 0 {
          assert a[0] == a[..k][0] == b[..k][0] == b[0];
          assert a[1..][..k - 1] == a[..k][1..] && b[1..][..k - 1] == b[..k][1..];
          assert LessAt(a[1..], b[1..], k - 1);
        }
      }
    }
  }

  predicate IsLeast(key: string, keys: set<string>) {
    key in keys && forall k | k in keys :: AtMost(key, k)
  }

  lemma {:induction false} HasLeast(keys: set<string>)
    requires keys != {}
    ensures exists key :: IsLeast(key, keys)
  {
    var some :| some in keys;
    AtMostIsTotal(some, some);
    if keys == {some} {
      assert IsLeast(some, keys);
    } else {
      var rest := keys - {some};
      HasLeast(rest);
      var least :| IsLeast(least, rest);
      AtMostIsTotal(some, least);
      if AtMost(least, some) {
        assert IsLeast(least, keys);
      } else {
        forall k | k in keys ensures AtMost(some, k) {
          if k != some {
            AtMostIsTransitive(some, least, k);
          }
        }
        assert IsLeast(some, keys);
      }
    }
  }

  // ---- Sorting ----

  ghost predicate TotalOrder<T(!new)>(le: (T, T) -> bool) {
    && (forall x, y :: le(x, y) || le(y, x))
    && (forall x, y, z :: le(x, y) && le(y, z) ==> le(x, z))
  }

  ghost predicate OrderedBy<T(!new)>(s: seq<T>, le: (T, T) -> bool) {
    forall i, j :: 0 <= i < j < |s| ==> le(s[i], s[j])
  }

  function Placed<T(!new)>(s: seq<T>, x: T, le: (T, T) -> bool): (r: seq<T>)
    requires TotalOrder(le) && OrderedBy(s, le)
    ensures OrderedBy(r, le) && multiset(r) == multiset(s) + multiset{x}
  {
    if s == [] then [x]
    else if le(x, s[0]) then [x] + s
    else
      var rest := Placed(s[1..], x, le);
      PlacedBehind(s, x, rest, le);
      [s[0]] + rest
  }

  lemma PlacedBehind<T(!new)>(s: seq<T>, x: T, rest: seq<T>, le: (T, T) -> bool)
    requires TotalOrder(le) && OrderedBy(s, le) && OrderedBy(rest, le) && s != [] && le(s[0], x)
    requires multiset(rest) == multiset(s[1..]) + multiset{x}
    ensures OrderedBy([s[0]] + rest, le) && multiset([s[0]] + rest) == multiset(s) + multiset{x}
  {
    assert s == [s[0]] + s[1..];
    forall j | 0 <= j < |rest| ensures le(s[0], rest[j]) {
      assert rest[j] in multiset(rest);
      assert rest[j] in s[1..] || rest[j] == x;
    }
  }

  function SortedBy<T(!new)>(s: seq<T>, le: (T, T) -> bool): (r: seq<T>)
    requires TotalOrder(le)
    ensures OrderedBy(r, le) && multiset(r) == multiset(s)
  {
    if s == [] then []
    else
      var front, last := s[..|s| - 1], s[|s| - 1];
      assert s == front + [last];
      Placed(SortedBy(front, le), last, le)
  }

  lemma {:induction false} CountOfDistinct<T(!new)>(s: seq<T>, x: T)
    ensures NoDuplicates(s) ==> multiset(s)[x] == if x in s then 1 else 0
    ensures !NoDuplicates(s) ==> exists y :: multiset(s)[y] > 1
  {
    if s == [] {
    } else {
      assert s == [s[0]] + s[1..];
      CountOfDistinct(s[1..], x);
      if !NoDuplicates(s) {
        if NoDuplicates(s[1..]) {
          assert s[0] in s[1..];
          assert s[0] in multiset(s[1..]);
          assert multiset(s)[s[0]] > 1;
        } else {
          var y :| multiset(s[1..])[y] > 1;
          assert multiset(s)[y] > 1;
        }
      }
    }
  }

  /** Lists with the same members as often have no duplicates both, or both have. */
  lemma SameMembers<T(!new)>(s: seq<T>, r: seq<T>)
    requires multiset(s) == multiset(r)
    ensures forall x :: x in s <==> x in r
    ensures NoDuplicates(s) ==> NoDuplicates(r)
  {
    forall x ensures x in s <==> x in r {
      assert x in s <==> x in multiset(s);
      assert x in r <==> x in multiset(r);
    }
    if NoDuplicates(s) && !NoDuplicates(r) {
      assert exists y :: multiset(r)[y] > 1 by {
        var any := r[0];
        CountOfDistinct(r, any);
      }
      var y :| multiset(r)[y] > 1;
      CountOfDistinct(s, y);
    }
  }
}
