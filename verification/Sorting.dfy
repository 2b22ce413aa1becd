/** Sorting as the library sorts do it: a sorted permutation, which a total order makes unique. */
module Sorting {
  import opened Prelude

  ghost predicate TotalOrder<T(!new)>(leq: (T, T) -> bool) {
    && (forall a, b :: leq(a, b) || leq(b, a))
    && (forall a, b :: leq(a, b) && leq(b, a) ==> a == b)
    && (forall a, b, c :: leq(a, b) && leq(b, c) ==> leq(a, c))
  }

  ghost predicate SortedBy<T>(xs: seq<T>, leq: (T, T) -> bool) {
    forall i, j :: 0 <= i < j < |xs| ==> leq(xs[i], xs[j])
  }

  function Insert<T>(x: T, xs: seq<T>, leq: (T, T) -> bool): seq<T> {
    if xs == [] || leq(x, xs[0]) then [x] + xs else [xs[0]] + Insert(x, xs[1..], leq)
  }

  function Sort<T>(xs: seq<T>, leq: (T, T) -> bool): seq<T> {
    if xs == [] then [] else Insert(xs[0], Sort(xs[1..], leq), leq)
  }

  lemma HeadIsLeast<T(!new)>(xs: seq<T>, x: T, leq: (T, T) -> bool)
    requires TotalOrder(leq) && SortedBy(xs, leq) && x in multiset(xs)
    ensures xs != [] && leq(xs[0], x)
  {
    assert x in xs;
    var i :| 0 <= i < |xs| && xs[i] == x;
    assert leq(x, x);
  }

  lemma ConsSorted<T(!new)>(x: T, xs: seq<T>, leq: (T, T) -> bool)
    requires SortedBy(xs, leq) && forall y :: y in multiset(xs) ==> leq(x, y)
    ensures SortedBy([x] + xs, leq)
  {
    forall i, j | 0 <= i < j < |[x] + xs| ensures leq(([x] + xs)[i], ([x] + xs)[j]) {
      assert xs[j - 1] in multiset(xs);
    }
  }

  lemma {:induction false} InsertSorts<T(!new)>(x: T, xs: seq<T>, leq: (T, T) -> bool)
    requires TotalOrder(leq) && SortedBy(xs, leq)
    ensures SortedBy(Insert(x, xs, leq), leq)
    ensures multiset(Insert(x, xs, leq)) == multiset{x} + multiset(xs)
  {
    if xs == [] || leq(x, xs[0]) {
      forall y | y in multiset(xs) ensures leq(x, y) { HeadIsLeast(xs, y, leq); }
      ConsSorted(x, xs, leq);
    } else {
      InsertSorts(x, xs[1..], leq);
      var rest := Insert(x, xs[1..], leq);
      assert xs == [xs[0]] + xs[1..];
      forall y | y in multiset(rest) ensures leq(xs[0], y) {
        assert y == x || y in multiset(xs);
        if y != x { HeadIsLeast(xs, y, leq); }
      }
      ConsSorted(xs[0], rest, leq);
    }
  }

  lemma {:induction false} SortSorts<T(!new)>(xs: seq<T>, leq: (T, T) -> bool)
    requires TotalOrder(leq)
    ensures SortedBy(Sort(xs, leq), leq)
    ensures multiset(Sort(xs, leq)) == multiset(xs)
  {
    if xs != [] {
      SortSorts(xs[1..], leq);
      InsertSorts(xs[0], Sort(xs[1..], leq), leq);
      assert xs == [xs[0]] + xs[1..];
    }
  }

  lemma {:induction false} SortedIsUnique<T(!new)>(a: seq<T>, b: seq<T>, leq: (T, T) -> bool)
    requires TotalOrder(leq) && SortedBy(a, leq) && SortedBy(b, leq)
    requires multiset(a) == multiset(b)
    ensures a == b
  {
    assert |a| == |multiset(a)| == |multiset(b)| == |b|;
    if a != [] {
      assert a[0] in multiset(a) && b[0] in multiset(b);
      HeadIsLeast(a, b[0], leq);
      HeadIsLeast(b, a[0], leq);
      assert a == [a[0]] + a[1..] && b == [b[0]] + b[1..];
      assert multiset(a[1..]) == multiset(a) - multiset{a[0]};
      assert multiset(b[1..]) == multiset(b) - multiset{b[0]};
      SortedIsUnique(a[1..], b[1..], leq);
    }
  }

  /** Sorting forgets exactly the order. */
  lemma SortEqualIff<T(!new)>(a: seq<T>, b: seq<T>, leq: (T, T) -> bool)
    requires TotalOrder(leq)
    ensures Sort(a, leq) == Sort(b, leq) <==> multiset(a) == multiset(b)
  {
    SortSorts(a, leq);
    SortSorts(b, leq);
    if multiset(a) == multiset(b) {
      SortedIsUnique(Sort(a, leq), Sort(b, leq), leq);
    }
  }

  predicate LexLeq(a: seq<byte>, b: seq<byte>) {
    a == b || LexLess(a, b)
  }

  lemma LexLeqIsTotalOrder()
    ensures TotalOrder(LexLeq)
  {
    forall a, b ensures LexLeq(a, b) || LexLeq(b, a) { LexTotal(a, b); }
    forall a, b | LexLeq(a, b) && LexLeq(b, a) ensures a == b { if a != b { LexAsymmetric(a, b); } }
    forall a, b, c | LexLeq(a, b) && LexLeq(b, c) ensures LexLeq(a, c) {
      if a != b && b != c { LexTransitive(a, b, c); }
    }
  }

  /** By key, then by value. */
  predicate PairLeq(a: (seq<byte>, seq<byte>), b: (seq<byte>, seq<byte>)) {
    if a.0 == b.0 then LexLeq(a.1, b.1) else LexLess(a.0, b.0)
  }

  lemma PairLeqIsTotalOrder()
    ensures TotalOrder(PairLeq)
  {
    LexLeqIsTotalOrder();
    forall a: (seq<byte>, seq<byte>), b: (seq<byte>, seq<byte>) ensures PairLeq(a, b) || PairLeq(b, a) {
      LexTotal(a.0, b.0);
      assert LexLeq(a.1, b.1) || LexLeq(b.1, a.1);
    }
    forall a: (seq<byte>, seq<byte>), b: (seq<byte>, seq<byte>) | PairLeq(a, b) && PairLeq(b, a) ensures a == b {
      if a.0 != b.0 { LexAsymmetric(a.0, b.0); }
    }
    forall a: (seq<byte>, seq<byte>), b: (seq<byte>, seq<byte>), c: (seq<byte>, seq<byte>) | PairLeq(a, b) && PairLeq(b, c)
      ensures PairLeq(a, c)
    {
      if a.0 != b.0 && b.0 != c.0 {
        LexTransitive(a.0, b.0, c.0);
        LexAsymmetric(a.0, c.0);
      }
    }
  }
}
