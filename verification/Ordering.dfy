/**
  Orders, sorted sequences, and the specification "the k smallest of a multiset".
  Exact search, graph search and page selection all refine that one specification.
 */
module Ordering {

  ghost predicate TotalPreorder<T(!new)>(leq: (T, T) -> bool) {
    && (forall x, y :: leq(x, y) || leq(y, x))
    && (forall x, y, z :: leq(x, y) && leq(y, z) ==> leq(x, z))
  }

  ghost predicate Sorted<T>(leq: (T, T) -> bool, s: seq<T>) {
    forall i, j | 0 <= i < j < |s| :: leq(s[i], s[j])
  }

  function Min(a: nat, b: nat): nat {
    if a < b then a else b
  }

  ghost function Elements<T>(s: seq<T>): set<T> {
    set x | x in s
  }

  ghost predicate NoDuplicates<T>(s: seq<T>) {
    forall i, j | 0 <= i < j < |s| :: s[i] != s[j]
  }

  lemma RepeatIsCounted<T>(s: seq<T>, i: nat, j: nat)
    requires i < j < |s| && s[i] == s[j]
    ensures multiset(s)[s[i]] >= 2
  {
    assert s == s[..j] + [s[j]] + s[j + 1..];
    assert s[..j][i] == s[i];
  }

  /** `chosen` holds the k smallest elements of `all`, or all of them when there are fewer. */
  ghost predicate Smallest<T(!new)>(leq: (T, T) -> bool, all: multiset<T>, k: nat, chosen: multiset<T>) {
    && chosen <= all
    && |chosen| == Min(k, |all|)
    && forall x, y | x in chosen && y in all - chosen :: leq(x, y)
  }

  /** While fewer than k elements have been offered, every element is kept. */
  lemma SmallestGrow<T(!new)>(leq: (T, T) -> bool, all: multiset<T>, k: nat, chosen: multiset<T>, x: T)
    requires Smallest(leq, all, k, chosen)
    requires |chosen| < k
    ensures Smallest(leq, all + multiset{x}, k, chosen + multiset{x})
  {
    assert |all - chosen| == 0;
    assert all == chosen;
  }

  /** A new element no smaller than the largest kept one may be dropped. */
  lemma SmallestReject<T(!new)>(leq: (T, T) -> bool, all: multiset<T>, k: nat, chosen: multiset<T>, top: T, x: T)
    requires TotalPreorder(leq)
    requires Smallest(leq, all, k, chosen)
    requires |chosen| == k
    requires forall y | y in chosen :: leq(y, top)
    requires leq(top, x)
    ensures Smallest(leq, all + multiset{x}, k, chosen)
  {
    var all' := all + multiset{x};
    forall y, z | y in chosen && z in all' - chosen
      ensures leq(y, z)
    {
      if z != x {
        assert z in all - chosen;
      }
    }
  }

  /** A new element no larger than the largest kept one may replace it. */
  lemma SmallestReplace<T(!new)>(leq: (T, T) -> bool, all: multiset<T>, k: nat, chosen: multiset<T>, top: T, x: T)
    requires TotalPreorder(leq)
    requires Smallest(leq, all, k, chosen)
    requires |chosen| == k
    requires top in chosen && forall y | y in chosen :: leq(y, top)
    requires leq(x, top)
    ensures Smallest(leq, all + multiset{x}, k, chosen - multiset{top} + multiset{x})
  {
    var all', chosen' := all + multiset{x}, chosen - multiset{top} + multiset{x};
    forall y, z | y in chosen' && z in all' - chosen'
      ensures leq(y, z)
    {
      assert leq(y, top);
      assert (all' - chosen')[z] == (all - chosen)[z] + if z == top then 1 else 0;
      if z != top {
        assert z in all - chosen && leq(top, z);
      }
    }
  }

  lemma SubMultisetSize<T>(a: multiset<T>, b: multiset<T>)
    requires a <= b
    ensures |a| <= |b|
  {
    assert b == a + (b - a);
  }

  lemma Pigeonhole<T(!new)>(a: multiset<T>, b: multiset<T>) returns (e: T)
    requires |a| > |b|
    ensures a[e] > b[e]
  {
    if a <= b {
      SubMultisetSize(a, b);
      assert false;
    }
    e :| a[e] > b[e];
  }

  /** An element that the first i of the best do not use up is no smaller than the i-th best. */
  lemma BeyondPrefix<T(!new)>(leq: (T, T) -> bool, all: multiset<T>, k: nat, best: seq<T>, i: nat, e: T)
    requires TotalPreorder(leq)
    requires Smallest(leq, all, k, multiset(best)) && Sorted(leq, best)
    requires i < |best| && multiset(best[..i])[e] < all[e]
    ensures leq(best[i], e)
  {
    assert best == best[..i] + best[i..];
    if e in best[i..] {
      var q :| 0 <= q < |best[i..]| && best[i..][q] == e;
      assert best[i + q] == e && leq(best[i], e);
    } else {
      assert multiset(best)[e] == multiset(best[..i])[e];
      assert e in all - multiset(best);
      assert best[i] in multiset(best);
    }
  }

  /**
    Position by position, a sorted list of the k smallest is a lower bound for any other
    sorted list drawn from the same multiset.
   */
  lemma SmallestIsLowerBound<T(!new)>(leq: (T, T) -> bool, all: multiset<T>, k: nat, best: seq<T>, other: seq<T>, i: nat)
    requires TotalPreorder(leq)
    requires Smallest(leq, all, k, multiset(best)) && Sorted(leq, best)
    requires multiset(other) <= all && Sorted(leq, other)
    requires i < |best| && i < |other|
    ensures leq(best[i], other[i])
  {
    var head := other[..i + 1];
    assert other == head + other[i + 1..];
    var e := Pigeonhole(multiset(head), multiset(best[..i]));
    assert e in head;
    var p :| 0 <= p < |head| && head[p] == e;
    assert leq(e, other[i]);
    assert multiset(head)[e] <= multiset(other)[e] <= all[e];
    BeyondPrefix(leq, all, k, best, i, e);
  }

  /** Under an antisymmetric order the sorted list of the k smallest is unique. */
  lemma SmallestIsUnique<T(!new)>(leq: (T, T) -> bool, all: multiset<T>, k: nat, a: seq<T>, b: seq<T>)
    requires TotalPreorder(leq)
    requires forall x, y :: leq(x, y) && leq(y, x) ==> x == y
    requires Smallest(leq, all, k, multiset(a)) && Sorted(leq, a)
    requires Smallest(leq, all, k, multiset(b)) && Sorted(leq, b)
    ensures a == b
  {
    assert |a| == |multiset(a)| && |b| == |multiset(b)|;
    forall i | 0 <= i < |a|
      ensures a[i] == b[i]
    {
      SmallestIsLowerBound(leq, all, k, a, b, i);
      SmallestIsLowerBound(leq, all, k, b, a, i);
    }
  }

  lemma PrependSorted<T(!new)>(leq: (T, T) -> bool, x: T, s: seq<T>, all: multiset<T>)
    requires Sorted(leq, s) && multiset(s) == all && forall y | y in all :: leq(x, y)
    ensures Sorted(leq, [x] + s) && multiset([x] + s) == multiset{x} + all
  {
    forall j | 0 <= j < |s|
      ensures leq(x, s[j])
    {
      assert s[j] in multiset(s);
    }
  }

  lemma HeadIsLeast<T(!new)>(leq: (T, T) -> bool, s: seq<T>)
    requires TotalPreorder(leq) && Sorted(leq, s) && s != []
    ensures multiset(s) == multiset{s[0]} + multiset(s[1..]) && forall y | y in multiset(s) :: leq(s[0], y)
  {
    assert s == [s[0]] + s[1..];
    forall y | y in multiset(s)
      ensures leq(s[0], y)
    {
      assert y in s;
    }
  }

  /** Insertion of x into a sorted list, before every element that is not smaller. */
  function Insert<T(!new)>(leq: (T, T) -> bool, x: T, s: seq<T>): (r: seq<T>)
    requires TotalPreorder(leq) && Sorted(leq, s)
    ensures Sorted(leq, r) && multiset(r) == multiset(s) + multiset{x}
  {
    if s == [] then [x]
    else
      HeadIsLeast(leq, s);
      if leq(x, s[0]) then
        PrependSorted(leq, x, s, multiset(s));
        [x] + s
      else
        var rest := Insert(leq, x, s[1..]);
        PrependSorted(leq, s[0], rest, multiset(s[1..]) + multiset{x});
        [s[0]] + rest
  }

  /** The library sort: some sorted arrangement of the same elements. */
  function SortBy<T(!new)>(leq: (T, T) -> bool, s: seq<T>): (r: seq<T>)
    requires TotalPreorder(leq)
    ensures Sorted(leq, r) && multiset(r) == multiset(s)
  {
    if s == [] then []
    else
      assert s == [s[0]] + s[1..];
      Insert(leq, s[0], SortBy(leq, s[1..]))
  }
}
