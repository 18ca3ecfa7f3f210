/**
  What a search answer promises whichever path produced it (internal/core/service.go): graph
  search and exact search give sorted lists of distinct stored ids with their true distances,
  and the graph is never closer than the exact answer.
 */
module Answers {
  import opened Ordering
  import opened Distance
  import opened ExactSearch
  import opened AnnIndexes
  import opened IdResolvers
  import opened ServiceState

  /** At most k distinct stored ids with their true squared distances, closest first; a query shorter than a vector is compared with its prefix. */
  ghost predicate StoredAnswer(store: Vectors, query: Vec, k: nat, hits: seq<Hit>) {
    && |hits| <= k && (forall i: nat, j: nat :: InRank(hits, i, j))
    && forall i | 0 <= i < |hits| :: IsStored(store, query, hits[i])
  }

  ghost predicate InRank(hits: seq<Hit>, i: nat, j: nat) {
    i < j < |hits| ==> Closer(hits[i], hits[j]) && hits[i].id != hits[j].id
  }

  lemma StoredIsRanked(store: Vectors, query: Vec, k: nat, hits: seq<Hit>)
    requires StoredAnswer(store, query, k, hits)
    ensures Sorted(Closer, hits) && forall i, j | 0 <= i < j < |hits| :: hits[i].id != hits[j].id
  {
    forall i, j | 0 <= i < j < |hits|
      ensures Closer(hits[i], hits[j]) && hits[i].id != hits[j].id
    {
      assert InRank(hits, i, j);
    }
  }

  ghost predicate IsStored(store: Vectors, query: Vec, hit: Hit) {
    hit.id in store && |query| <= |store[hit.id]| && hit.distance == SquaredDistance(query, store[hit.id])
  }

  ghost predicate Monotone(sqrt: real -> real) {
    forall x, y :: x <= y ==> sqrt(x) <= sqrt(y)
  }

  lemma RootsStaySorted(sqrt: real -> real, store: Vectors, query: Vec, k: nat, hits: seq<Hit>)
    requires Monotone(sqrt) && StoredAnswer(store, query, k, hits)
    ensures Sorted(Closer, WithRoots(sqrt, hits))
  {
    forall i, j | 0 <= i < j < |hits|
      ensures Closer(WithRoots(sqrt, hits)[i], WithRoots(sqrt, hits)[j])
    {
      assert InRank(hits, i, j);
    }
  }

  /** Distinct true hits are some of the candidates. */
  lemma StoredAreCandidates(store: Vectors, query: Vec, k: nat, hits: seq<Hit>)
    requires Scorable(store, query) && StoredAnswer(store, query, k, hits)
    ensures multiset(hits) <= multiset(PrefixScores(store, store.Keys, query))
  {
    var all := PrefixScores(store, store.Keys, query);
    StoredIsRanked(store, query, k, hits);
    forall h
      ensures multiset(hits)[h] <= multiset(all)[h]
    {
      if h in multiset(hits) {
        assert h in hits;
        var i :| 0 <= i < |hits| && hits[i] == h;
        assert IsStored(store, query, hits[i]);
        if multiset(hits)[h] > 1 {
          var j := OtherOccurrence(hits, i);
        }
      }
    }
  }

  lemma OtherOccurrence(hits: seq<Hit>, i: nat) returns (j: nat)
    requires i < |hits| && multiset(hits)[hits[i]] > 1
    ensures j < |hits| && j != i && hits[j] == hits[i]
  {
    var rest := hits[..i] + hits[i + 1..];
    assert hits == hits[..i] + [hits[i]] + hits[i + 1..];
    assert multiset(hits) == multiset(rest) + multiset{hits[i]};
    assert hits[i] in multiset(rest);
    var q :| 0 <= q < |rest| && rest[q] == hits[i];
    j := if q < i then q else q + 1;
  }

  /** The i-th hit of any stored answer is no closer than the i-th hit of the exact answer. */
  lemma ExactIsNeverWorse(store: Vectors, query: Vec, k: nat, exact: seq<Hit>, hits: seq<Hit>)
    requires Scorable(store, query) && PrefixAnswer(store, query, k, exact) && StoredAnswer(store, query, k, hits)
    ensures |hits| <= |exact|
    ensures forall i | 0 <= i < |hits| :: exact[i].distance <= hits[i].distance
  {
    var all := multiset(PrefixScores(store, store.Keys, query));
    StoredAreCandidates(store, query, k, hits);
    StoredIsRanked(store, query, k, hits);
    SubMultisetSize(multiset(hits), all);
    assert |multiset(hits)| == |hits| && |multiset(exact)| == |exact|;
    CloserIsPreorder<Id>();
    forall i | 0 <= i < |hits|
      ensures exact[i].distance <= hits[i].distance
    {
      SmallestIsLowerBound(Closer, all, k, exact, hits, i);
    }
  }

  /** An exact answer is a stored answer, and is empty only over an empty store. */
  lemma ExactIsStored(store: Vectors, query: Vec, k: nat, exact: seq<Hit>)
    requires Scorable(store, query) && PrefixAnswer(store, query, k, exact) && k > 0
    ensures StoredAnswer(store, query, k, exact)
    ensures store != map[] ==> exact != []
  {
    var all := PrefixScores(store, store.Keys, query);
    assert |multiset(exact)| == |exact|;
    forall i | 0 <= i < |exact|
      ensures exact[i] in all && IsStored(store, query, exact[i])
    {
      assert exact[i] in multiset(exact);
      assert exact[i] in multiset(all);
    }
    forall i: nat, j: nat
      ensures InRank(exact, i, j)
    {
      if i < j < |exact| && exact[i].id == exact[j].id {
        assert IsStored(store, query, exact[i]) && IsStored(store, query, exact[j]);
        RepeatIsCounted(exact, i, j);
      }
    }
    if store != map[] {
      var id :| id in store;
      assert Scored(id, SquaredDistance(query, store[id])) in all;
      assert |multiset(all)| > 0;
    }
  }

  ghost predicate Named(internalToID: map<int, Id>, results: seq<Found>, hits: seq<Hit>) {
    && |hits| == |results|
    && forall i | 0 <= i < |hits| :: results[i].id in internalToID && hits[i] == Scored(internalToID[results[i].id], results[i].distance)
  }

  /** Internal ids translated through the resolver name the stored vectors they stand for. */
  lemma NamedIsStored(m: Vectors, a: map<Id, int>, b: map<int, Id>, live: map<int, Vec>, query: Vec, k: nat, results: seq<Found>, hits: seq<Hit>)
    requires Mirrors(m, a, b, live) && TrueAnswer(live, query, k, results) && Named(b, results, hits)
    ensures StoredAnswer(m, query, k, hits)
  {
    forall i | 0 <= i < |hits|
      ensures IsStored(m, query, hits[i]) && a[hits[i].id] == results[i].id
    {
      var r := results[i];
      assert IsTrue(live, query, r);
      var k: int := r.id;
      assert k in live;
      assert b[k] in m;
    }
    forall i: nat, j: nat
      ensures InRank(hits, i, j)
    {
      if i < j < |hits| {
        assert Closer(results[i], results[j]) && results[i].id != results[j].id;
        assert a[hits[i].id] == results[i].id && a[hits[j].id] == results[j].id;
      }
    }
  }

  /** The part of searchANN after the graph search: names for internal ids. */
  method NameResults(resolver: IdResolver, results: seq<Found>, ghost live: map<int, Vec>) returns (hits: seq<Hit>)
    requires resolver.Valid() && forall i | 0 <= i < |results| :: results[i].id in resolver.internalToID
    ensures Named(resolver.internalToID, results, hits)
  {
    hits := [];
    for i := 0 to |results|
      invariant Named(resolver.internalToID, results[..i], hits)
    {
      var id := resolver.Lookup(results[i].id);
      if id.None? {
        continue;
      }
      hits := hits + [Scored(id.value, results[i].distance)];
    }
  }
}
