/** Lists, the sets of their elements, and sorting. */
module Sequences {

  predicate Distinct<T(==)>(s: seq<T>) {
    forall i, j :: 0 <= i < j < |s| ==> s[i] != s[j]
  }

  ghost function Elements<T>(s: seq<T>): set<T> {
    set x | x in s
  }

  lemma {:induction false} CountDistinct<T>(s: seq<T>)
    requires Distinct(s)
    ensures |Elements(s)| == |s|
  {
    if s != [] {
      var t := s[..|s| - 1];
      CountDistinct(t);
      assert s == t + [s[|s| - 1]];
      assert Elements(s) == Elements(t) + {s[|s| - 1]};
    }
  }

  ghost predicate Preorder<T(!new)>(leq: (T, T) -> bool) {
    (forall a, b :: leq(a, b) || leq(b, a)) && forall a, b, c :: leq(a, b) && leq(b, c) ==> leq(a, c)
  }

  ghost predicate OrderedBy<T>(leq: (T, T) -> bool, s: seq<T>) {
    forall i, j :: 0 <= i < j < |s| ==> leq(s[i], s[j])
  }

  /** Stands for the library's sorts: callers see only that the result is an ordered rearrangement
      and learn nothing about ties, which the library breaks arbitrarily. */
  method SortBy<T(!new, ==)>(leq: (T, T) -> bool, s: seq<T>) returns (r: seq<T>)
    requires Preorder(leq)
    ensures OrderedBy(leq, r) && multiset(r) == multiset(s)
  {
    r := [];
    for n := 0 to |s|
      invariant OrderedBy(leq, r) && multiset(r) == multiset(s[..n])
    {
      var k := 0;
      while k < |r| && leq(r[k], s[n])
        invariant 0 <= k <= |r|
        invariant forall i :: 0 <= i < k ==> leq(r[i], s[n])
      {
        k := k + 1;
      }
      assert s[..n + 1] == s[..n] + [s[n]];
      InsertKeepsOrder(leq, r, k, s[n]);
      r := r[..k] + [s[n]] + r[k..];
    }
    assert s[..|s|] == s;
  }

  lemma InsertKeepsOrder<T(!new)>(leq: (T, T) -> bool, r: seq<T>, k: nat, x: T)
    requires Preorder(leq) && OrderedBy(leq, r) && k <= |r|
    requires forall i :: 0 <= i < k ==> leq(r[i], x)
    requires k < |r| ==> !leq(r[k], x)
    ensures OrderedBy(leq, r[..k] + [x] + r[k..])
    ensures multiset(r[..k] + [x] + r[k..]) == multiset(r) + multiset{x}
  {
    assert r == r[..k] + r[k..];
    forall j | k <= j < |r| ensures leq(x, r[j]) {
      BelowTail(leq, r, k, x, j);
    }
    InsertOrdered(leq, r, k, x);
  }

  lemma BelowTail<T(!new)>(leq: (T, T) -> bool, r: seq<T>, k: nat, x: T, j: nat)
    requires Preorder(leq) && OrderedBy(leq, r) && k <= j < |r| && !leq(r[k], x)
    ensures leq(x, r[j])
  {
    assert leq(x, r[k]);
    if k < j {
      assert leq(r[k], r[j]);
    }
  }

  lemma InsertOrdered<T>(leq: (T, T) -> bool, r: seq<T>, k: nat, x: T)
    requires OrderedBy(leq, r) && k <= |r|
    requires forall i :: 0 <= i < k ==> leq(r[i], x)
    requires forall j :: k <= j < |r| ==> leq(x, r[j])
    ensures OrderedBy(leq, r[..k] + [x] + r[k..])
  {
    var t := r[..k] + [x] + r[k..];
    forall i, j | 0 <= i < j < |t| ensures leq(t[i], t[j]) {
      var u := if i < k then r[i] else if i == k then x else r[i - 1];
      var v := if j < k then r[j] else if j == k then x else r[j - 1];
      assert t[i] == u && t[j] == v;
    }
  }

  // ---------- rearrangements and sizes ----------

  lemma SameElements<T>(s: seq<T>, r: seq<T>)
    requires multiset(s) == multiset(r) && Distinct(s)
    ensures |s| == |r| && Elements(s) == Elements(r) && Distinct(r)
  {
    assert |s| == |multiset(s)| && |r| == |multiset(r)|;
    forall x ensures x in s <==> x in r {
      assert x in s <==> x in multiset(s);
    }
    if i, j :| 0 <= i < j < |r| && r[i] == r[j] {
      assert r == r[..i] + [r[i]] + r[i + 1..j] + [r[j]] + r[j + 1..];
      assert multiset(s)[r[i]] >= 2;
      OnceEach(s, r[i]);
    }
  }

  lemma {:induction false} OnceEach<T>(s: seq<T>, x: T)
    requires Distinct(s)
    ensures multiset(s)[x] <= 1
  {
    if s != [] {
      assert s == [s[0]] + s[1..];
      OnceEach(s[1..], x);
      if s[0] == x {
        assert x !in s[1..];
      }
    }
  }

  lemma SubsetSize<T>(a: set<T>, b: set<T>)
    requires a <= b
    ensures |a| <= |b|
  {
    assert b == a + (b - a);
  }

  /** A set has one element exactly when some member is its only one. */
  lemma SizeOne<T>(s: set<T>)
    ensures |s| == 1 <==> exists x :: x in s && forall y :: y in s ==> y == x
  {
    if |s| == 1 {
      var x :| x in s;
      assert |s - {x}| == 0;
      assert forall y :: y in s ==> y == x || y in s - {x};
    }
    if x :| x in s && forall y :: y in s ==> y == x {
      assert s == {x};
    }
  }
}
