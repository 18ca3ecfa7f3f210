/**
  Exact search: the top-k accumulator, the single-query scan, and the batch scan with its
  four-wide blocks and its chunked parallel form (internal/core/service.go).
 */
module ExactSearch {
  import opened Ordering
  import opened BinaryHeap
  import opened Distance

  type Hit = Scored<Id>

  /** topKAccumulator: a max-heap on distance that keeps the `limit` closest items offered. */
  datatype TopK = TopK(limit: nat, items: seq<Hit>)

  /** The accumulator after being offered exactly `seen`. */
  ghost predicate Holds(acc: TopK, seen: multiset<Hit>) {
    && Heap(Reverse(Closer), acc.items)
    && Smallest(Closer, seen, acc.limit, multiset(acc.items))
  }

  function NewTopK(limit: int): (acc: TopK)
    ensures Holds(acc, multiset{}) && (limit <= 0 ==> acc.limit == 0)
  {
    if limit <= 0 then TopK(0, []) else TopK(limit, [])
  }

  method Add(acc0: TopK, item: Hit, ghost seen: multiset<Hit>) returns (acc: TopK)
    requires Holds(acc0, seen)
    ensures Holds(acc, seen + multiset{item}) && acc.limit == acc0.limit
  {
    acc := acc0;
    if acc.limit <= 0 {
      return;
    }
    CloserIsPreorder<Id>();
    var items, kept := Offer(Closer, acc.limit, acc.items, item, seen);
    acc := acc.(items := items);
  }

  /** sort.Slice by distance, then a square root of every distance. */
  method Results(acc: TopK, sqrt: real -> real, ghost seen: multiset<Hit>) returns (out: seq<Hit>, ghost ranked: seq<Hit>)
    requires Holds(acc, seen)
    ensures Sorted(Closer, ranked) && Smallest(Closer, seen, acc.limit, multiset(ranked))
    ensures out == WithRoots(sqrt, ranked)
  {
    CloserIsPreorder<Id>();
    ranked := SortBy(Closer, acc.items);
    out := WithRoots(sqrt, SortBy(Closer, acc.items));
  }

  function WithRoots(sqrt: real -> real, hits: seq<Hit>): (r: seq<Hit>)
    ensures |r| == |hits|
    ensures forall i | 0 <= i < |r| :: r[i] == Scored(hits[i].id, sqrt(hits[i].distance))
  {
    seq(|hits|, i requires 0 <= i < |hits| => Scored(hits[i].id, sqrt(hits[i].distance)))
  }

  ghost predicate SearchableBy(store: Vectors, query: Vec) {
    forall id | id in store :: |store[id]| == |query|
  }

  /** What one stored vector contributes to a query: nothing when the dimensions differ. */
  ghost function Gain(query: Vec, id: Id, values: Vec): multiset<Hit> {
    if |query| == |values| then multiset{Scored(id, SquaredDistance(query, values))} else multiset{}
  }

  /** Every given id whose vector has the query's dimension, with its squared distance. */
  ghost function Candidates(store: Vectors, ids: set<Id>, query: Vec): set<Hit>
    requires ids <= store.Keys
  {
    set id | id in ids && |store[id]| == |query| :: Scored(id, SquaredDistance(query, store[id]))
  }

  /** `ranked` lists the k stored vectors closest to the query, closest first. */
  ghost predicate ExactAnswer(store: Vectors, query: Vec, k: nat, ranked: seq<Hit>) {
    && Sorted(Closer, ranked)
    && Smallest(Closer, multiset(Candidates(store, store.Keys, query)), k, multiset(ranked))
  }

  /** The distance list of an exact answer does not depend on the order of the scan. */
  lemma ExactDistancesAreUnique(store: Vectors, query: Vec, k: nat, a: seq<Hit>, b: seq<Hit>)
    requires ExactAnswer(store, query, k, a) && ExactAnswer(store, query, k, b)
    ensures |a| == |b| && forall i | 0 <= i < |a| :: a[i].distance == b[i].distance
  {
    CloserIsPreorder<Id>();
    var all := multiset(Candidates(store, store.Keys, query));
    assert |a| == |multiset(a)| && |b| == |multiset(b)|;
    forall i | 0 <= i < |a|
      ensures a[i].distance == b[i].distance
    {
      SmallestIsLowerBound(Closer, all, k, a, b, i);
      SmallestIsLowerBound(Closer, all, k, b, a, i);
    }
  }

  /** An exact answer with the distances themselves instead of their squares. */
  ghost predicate IsExact(store: Vectors, query: Vec, k: nat, sqrt: real -> real, out: seq<Hit>) {
    exists ranked :: ExactAnswer(store, query, k, ranked) && out == WithRoots(sqrt, ranked)
  }

  lemma ExactAgree(store: Vectors, query: Vec, k: nat, sqrt: real -> real, a: seq<Hit>, b: seq<Hit>)
    requires IsExact(store, query, k, sqrt, a) && IsExact(store, query, k, sqrt, b)
    ensures |a| == |b| && forall i | 0 <= i < |a| :: a[i].distance == b[i].distance
  {
    var rankedA :| ExactAnswer(store, query, k, rankedA) && a == WithRoots(sqrt, rankedA);
    var rankedB :| ExactAnswer(store, query, k, rankedB) && b == WithRoots(sqrt, rankedB);
    ExactDistancesAreUnique(store, query, k, rankedA, rankedB);
  }

  /** Some order in which Go may range over the map. */
  ghost predicate Enumerates(order: seq<Id>, keys: set<Id>) {
    NoDuplicates(order) && Elements(order) == keys
  }

  lemma OneMoreCandidate(store: Vectors, order: seq<Id>, query: Vec, i: nat)
    requires Enumerates(order, store.Keys) && i < |order|
    ensures Elements(order[..i]) <= store.Keys && Elements(order[..i + 1]) <= store.Keys && order[i] in store
    ensures multiset(Candidates(store, Elements(order[..i + 1]), query))
      == multiset(Candidates(store, Elements(order[..i]), query)) + Gain(query, order[i], store[order[i]])
  {
    var ids, ids', values := Elements(order[..i]), Elements(order[..i + 1]), store[order[i]];
    assert order[i] in Elements(order);
    assert order[..i + 1] == order[..i] + [order[i]];
    assert ids' == ids + {order[i]} && order[i] !in ids;
    if |query| == |values| {
      var hit := Scored(order[i], SquaredDistance(query, values));
      assert Candidates(store, ids', query) == Candidates(store, ids, query) + {hit};
      assert hit !in Candidates(store, ids, query);
    } else {
      assert Candidates(store, ids', query) == Candidates(store, ids, query);
    }
  }

  /** The single scan does not compare dimensions: a query no longer than the stored vectors is scored on a prefix of each. */
  ghost predicate Scorable(store: Vectors, query: Vec) {
    forall id | id in store :: |query| <= |store[id]|
  }

  ghost function PrefixScores(store: Vectors, ids: set<Id>, query: Vec): set<Hit>
    requires ids <= store.Keys && Scorable(store, query)
  {
    set id | id in ids :: Scored(id, SquaredDistance(query, store[id]))
  }

  /** `ranked` lists the k stored vectors whose prefixes are closest to the query, closest first. */
  ghost predicate PrefixAnswer(store: Vectors, query: Vec, k: nat, ranked: seq<Hit>)
    requires Scorable(store, query)
  {
    Sorted(Closer, ranked) && Smallest(Closer, multiset(PrefixScores(store, store.Keys, query)), k, multiset(ranked))
  }

  lemma OneMoreScore(store: Vectors, order: seq<Id>, query: Vec, i: nat)
    requires Enumerates(order, store.Keys) && Scorable(store, query) && i < |order|
    ensures Elements(order[..i]) <= store.Keys && Elements(order[..i + 1]) <= store.Keys && order[i] in store
    ensures multiset(PrefixScores(store, Elements(order[..i + 1]), query))
      == multiset(PrefixScores(store, Elements(order[..i]), query)) + multiset{Scored(order[i], SquaredDistance(query, store[order[i]]))}
  {
    var ids, ids', hit := Elements(order[..i]), Elements(order[..i + 1]), Scored(order[i], SquaredDistance(query, store[order[i]]));
    assert order[i] in Elements(order);
    assert order[..i + 1] == order[..i] + [order[i]];
    assert ids' == ids + {order[i]} && order[i] !in ids;
    assert PrefixScores(store, ids', query) == PrefixScores(store, ids, query) + {hit};
    assert hit !in PrefixScores(store, ids, query);
  }

  /** For a query of the stored dimension that is the exact answer. */
  lemma FullScores(store: Vectors, query: Vec)
    requires SearchableBy(store, query)
    ensures Scorable(store, query) && PrefixScores(store, store.Keys, query) == Candidates(store, store.Keys, query)
  {
  }

  method SearchExact(store: Vectors, order: seq<Id>, query: Vec, k: nat, sqrt: real -> real) returns (out: seq<Hit>, ghost ranked: seq<Hit>)
    requires Enumerates(order, store.Keys) && Scorable(store, query)
    ensures PrefixAnswer(store, query, k, ranked) && out == WithRoots(sqrt, ranked)
    ensures SearchableBy(store, query) ==> ExactAnswer(store, query, k, ranked) && IsExact(store, query, k, sqrt, out)
  {
    var acc := NewTopK(k);
    for i := 0 to |order|
      invariant acc.limit == k && Elements(order[..i]) <= store.Keys
      invariant Holds(acc, multiset(PrefixScores(store, Elements(order[..i]), query)))
    {
      OneMoreScore(store, order, query, i);
      var dist := SquaredEuclideanDistance32SameLen(query, store[order[i]]);
      acc := Add(acc, Scored(order[i], dist), multiset(PrefixScores(store, Elements(order[..i]), query)));
    }
    assert order[..|order|] == order;
    out, ranked := Results(acc, sqrt, multiset(PrefixScores(store, store.Keys, query)));
    if SearchableBy(store, query) {
      FullScores(store, query);
    }
  }

  datatype Query = Query(vals32: Vec, k: nat)
  datatype Prepared = Prepared(query: Query, acc: TopK)

  ghost predicate Accumulated(p: Prepared, query: Query, seen: multiset<Hit>) {
    p.query == query && p.acc.limit == query.k && Holds(p.acc, seen)
  }

  /** Queries lo..n have accumulated `after`, the others `before`. */
  ghost predicate Progress(prepared: seq<Prepared>, queries: seq<Query>, before: seq<multiset<Hit>>, after: seq<multiset<Hit>>, lo: nat, n: nat) {
    && |prepared| == |queries| == |before| == |after|
    && forall i | 0 <= i < |prepared| :: Accumulated(prepared[i], queries[i], if lo <= i < n then after[i] else before[i])
  }

  /** `after` adds to `before` what one stored vector contributes to each of the queries lo..hi. */
  ghost predicate Gains(queries: seq<Query>, before: seq<multiset<Hit>>, after: seq<multiset<Hit>>, lo: nat, hi: nat, id: Id, values: Vec) {
    && hi <= |queries| == |before| == |after|
    && forall i | lo <= i < hi :: after[i] == before[i] + Gain(queries[i].vals32, id, values)
  }

  const WIDTH := 4

  method OfferOne(prepared: array<Prepared>, lo: nat, i: nat, id: Id, dist: Option<real>,
                  ghost queries: seq<Query>, ghost before: seq<multiset<Hit>>, ghost after: seq<multiset<Hit>>)
    requires lo <= i < prepared.Length && Progress(prepared[..], queries, before, after, lo, i)
    requires after[i] == before[i] + if dist.Some? then multiset{Scored(id, dist.value)} else multiset{}
    modifies prepared
    ensures Progress(prepared[..], queries, before, after, lo, i + 1)
  {
    assert Accumulated(prepared[..][i], queries[i], before[i]);
    if dist.Some? {
      var acc := Add(prepared[i].acc, Scored(id, dist.value), before[i]);
      prepared[i] := prepared[i].(acc := acc);
    }
    assert Accumulated(prepared[i], queries[i], after[i]);
    assert forall j | 0 <= j < prepared.Length && j != i :: prepared[..][j] == old(prepared[..])[j];
  }

  method OfferSingly(prepared: array<Prepared>, lo: nat, ghost hi: nat, from: nat, to: nat, id: Id, values: Vec,
                     ghost queries: seq<Query>, ghost before: seq<multiset<Hit>>, ghost after: seq<multiset<Hit>>)
    requires lo <= from <= to <= hi <= prepared.Length && Gains(queries, before, after, lo, hi, id, values)
    requires Progress(prepared[..], queries, before, after, lo, from)
    modifies prepared
    ensures Progress(prepared[..], queries, before, after, lo, to)
  {
    for j := from to to
      invariant Progress(prepared[..], queries, before, after, lo, j)
    {
      assert Accumulated(prepared[..][j], queries[j], before[j]);
      var dist := SquaredEuclideanDistance32(prepared[j].query.vals32, values);
      OfferOne(prepared, lo, j, id, dist, queries, before, after);
    }
  }

  method OfferScored(prepared: array<Prepared>, lo: nat, i: nat, id: Id, distances: seq<real>,
                     ghost queries: seq<Query>, ghost before: seq<multiset<Hit>>, ghost after: seq<multiset<Hit>>)
    requires lo <= i <= i + |distances| <= prepared.Length && Progress(prepared[..], queries, before, after, lo, i)
    requires forall j | 0 <= j < |distances| :: after[i + j] == before[i + j] + multiset{Scored(id, distances[j])}
    modifies prepared
    ensures Progress(prepared[..], queries, before, after, lo, i + |distances|)
  {
    for j := 0 to |distances|
      invariant Progress(prepared[..], queries, before, after, lo, i + j)
    {
      OfferOne(prepared, lo, i + j, id, Some(distances[j]), queries, before, after);
    }
  }

  ghost predicate AreDistances(prepared: seq<Prepared>, i: nat, values: Vec, distances: seq<real>) {
    i + |distances| <= |prepared|
    && forall j | 0 <= j < |distances| :: IsDistance(prepared[i + j].query.vals32, values, distances[j])
  }

  ghost predicate IsDistance(query: Vec, values: Vec, d: real) {
    |query| == |values| && d == SquaredDistance(query, values)
  }

  method FourDistances(prepared: array<Prepared>, i: nat, values: Vec) returns (distances: seq<real>)
    requires i + WIDTH <= prepared.Length
    requires |prepared[i].query.vals32| == |prepared[i + 1].query.vals32| == |values|
    requires |prepared[i + 2].query.vals32| == |prepared[i + 3].query.vals32| == |values|
    ensures |distances| == WIDTH && AreDistances(prepared[..], i, values, distances)
  {
    var d0, d1, d2, d3 := SquaredEuclideanDistance32x4SameLen(
      prepared[i].query.vals32, prepared[i + 1].query.vals32, prepared[i + 2].query.vals32, prepared[i + 3].query.vals32, values);
    distances := [d0, d1, d2, d3];
  }

  /** A query of the vector's dimension gains one hit. */
  lemma FullGains(prepared: seq<Prepared>, queries: seq<Query>, before: seq<multiset<Hit>>, after: seq<multiset<Hit>>,
                  lo: nat, hi: nat, i: nat, id: Id, values: Vec, distances: seq<real>)
    requires lo <= i <= i + |distances| <= hi <= |prepared| && Progress(prepared, queries, before, after, lo, i)
    requires Gains(queries, before, after, lo, hi, id, values) && AreDistances(prepared, i, values, distances)
    ensures forall j | 0 <= j < |distances| :: after[i + j] == before[i + j] + multiset{Scored(id, distances[j])}
  {
    forall j | 0 <= j < |distances|
      ensures after[i + j] == before[i + j] + multiset{Scored(id, distances[j])}
    {
      assert Accumulated(prepared[i + j], queries[i + j], before[i + j]);
      assert IsDistance(prepared[i + j].query.vals32, values, distances[j]);
    }
  }

  method OfferFour(prepared: array<Prepared>, lo: nat, ghost hi: nat, i: nat, id: Id, values: Vec,
                   ghost queries: seq<Query>, ghost before: seq<multiset<Hit>>, ghost after: seq<multiset<Hit>>)
    requires lo <= i <= i + WIDTH <= hi <= prepared.Length && Gains(queries, before, after, lo, hi, id, values)
    requires |prepared[i].query.vals32| == |prepared[i + 1].query.vals32| == |values|
    requires |prepared[i + 2].query.vals32| == |prepared[i + 3].query.vals32| == |values|
    requires Progress(prepared[..], queries, before, after, lo, i)
    modifies prepared
    ensures Progress(prepared[..], queries, before, after, lo, i + WIDTH)
  {
    var distances := FourDistances(prepared, i, values);
    FullGains(prepared[..], queries, before, after, lo, hi, i, id, values, distances);
    OfferScored(prepared, lo, i, id, distances, queries, before, after);
  }

  method OfferBlock(prepared: array<Prepared>, lo: nat, ghost hi: nat, i: nat, id: Id, values: Vec,
                    ghost queries: seq<Query>, ghost before: seq<multiset<Hit>>, ghost after: seq<multiset<Hit>>)
    requires lo <= i <= i + WIDTH <= hi <= prepared.Length && Gains(queries, before, after, lo, hi, id, values)
    requires Progress(prepared[..], queries, before, after, lo, i)
    modifies prepared
    ensures Progress(prepared[..], queries, before, after, lo, i + WIDTH)
  {
    if && |prepared[i].query.vals32| == |values| && |prepared[i + 1].query.vals32| == |values|
       && |prepared[i + 2].query.vals32| == |values| && |prepared[i + 3].query.vals32| == |values|
    {
      OfferFour(prepared, lo, hi, i, id, values, queries, before, after);
    } else {
      OfferSingly(prepared, lo, hi, i, i + WIDTH, id, values, queries, before, after);
    }
  }

  lemma TailStart(lo: nat, hi: nat, i: nat, blocks: nat)
    requires lo <= i <= hi < i + WIDTH && i == lo + WIDTH * blocks
    ensures i == hi - (hi - lo) % WIDTH
  {
    assert hi - lo == WIDTH * blocks + (hi - i);
  }

  /** The callback of scanExactBatch: one stored vector against the queries lo..hi. */
  method OfferToBatch(prepared: array<Prepared>, lo: nat, hi: nat, id: Id, values: Vec,
                      ghost queries: seq<Query>, ghost before: seq<multiset<Hit>>, ghost after: seq<multiset<Hit>>)
    requires lo <= hi <= prepared.Length && Gains(queries, before, after, lo, hi, id, values)
    requires Progress(prepared[..], queries, before, after, lo, lo)
    modifies prepared
    ensures Progress(prepared[..], queries, before, after, lo, hi)
  {
    var i := lo;
    ghost var blocks: nat := 0;
    while i + WIDTH <= hi
      invariant lo <= i <= hi && i == lo + WIDTH * blocks
      invariant Progress(prepared[..], queries, before, after, lo, i)
    {
      OfferBlock(prepared, lo, hi, i, id, values, queries, before, after);
      i, blocks := i + WIDTH, blocks + 1;
    }
    TailStart(lo, hi, i, blocks);
    OfferSingly(prepared, lo, hi, hi - (hi - lo) % WIDTH, hi, id, values, queries, before, after);
  }

  /** Queries below lo have seen every vector, those from lo to hi the given ids, the rest nothing. */
  ghost function Scanned(store: Vectors, queries: seq<Query>, ids: set<Id>, lo: nat, hi: nat): (r: seq<multiset<Hit>>)
    requires ids <= store.Keys
    ensures |r| == |queries|
  {
    seq(|queries|, i requires 0 <= i < |queries| =>
      if i < lo then multiset(Candidates(store, store.Keys, queries[i].vals32))
      else if i < hi then multiset(Candidates(store, ids, queries[i].vals32))
      else multiset{})
  }

  lemma ScannedStep(store: Vectors, order: seq<Id>, queries: seq<Query>, lo: nat, hi: nat, i: nat)
    requires Enumerates(order, store.Keys) && i < |order| && hi <= |queries|
    ensures Elements(order[..i]) <= store.Keys && Elements(order[..i + 1]) <= store.Keys && order[i] in store
    ensures Gains(queries, Scanned(store, queries, Elements(order[..i]), lo, hi),
                  Scanned(store, queries, Elements(order[..i + 1]), lo, hi), lo, hi, order[i], store[order[i]])
  {
    assert order[i] in Elements(order);
    forall q: Vec {
      OneMoreCandidate(store, order, q, i);
    }
  }

  ghost predicate AllHold(prepared: seq<Prepared>, queries: seq<Query>, seen: seq<multiset<Hit>>) {
    Progress(prepared, queries, seen, seen, 0, 0)
  }

  method ScanExactBatch(prepared: array<Prepared>, lo: nat, hi: nat, store: Vectors, order: seq<Id>, ghost queries: seq<Query>)
    requires lo <= hi <= prepared.Length && Enumerates(order, store.Keys)
    requires AllHold(prepared[..], queries, Scanned(store, queries, {}, lo, hi))
    modifies prepared
    ensures AllHold(prepared[..], queries, Scanned(store, queries, store.Keys, lo, hi))
  {
    assert Elements(order[..0]) == {};
    for i := 0 to |order|
      invariant Elements(order[..i]) <= store.Keys
      invariant AllHold(prepared[..], queries, Scanned(store, queries, Elements(order[..i]), lo, hi))
    {
      ScannedStep(store, order, queries, lo, hi, i);
      OfferToBatch(prepared, lo, hi, order[i], store[order[i]], queries,
                   Scanned(store, queries, Elements(order[..i]), lo, hi), Scanned(store, queries, Elements(order[..i + 1]), lo, hi));
    }
    assert order[..|order|] == order;
  }

  lemma NextChunk(store: Vectors, queries: seq<Query>, lo: nat, hi: nat, next: nat)
    requires lo <= hi <= next
    ensures Scanned(store, queries, store.Keys, lo, hi) == Scanned(store, queries, {}, hi, next)
  {
    assert forall q: Vec :: Candidates(store, {}, q) == {};
  }

  /** How many queries each worker takes: an even share, rounded up to whole blocks. */
  function ChunkSize(n: nat, procs: nat): (r: nat)
    ensures n > 0 ==> r > 0
  {
    var workers := Min(procs, n / WIDTH);
    if workers <= 1 then n
    else
      var share := (n + workers - 1) / workers;
      ShareIsPositive(n, workers);
      if share % WIDTH != 0 then share + (WIDTH - share % WIDTH) else share
  }

  lemma ShareIsPositive(n: nat, workers: nat)
    requires 0 < workers && 0 < n
    ensures (n + workers - 1) / workers > 0
  {
  }

  /** `orders(start)` is the order in which the worker for the chunk at `start` happens to range over the map. */
  method ScanExactParallel(prepared: array<Prepared>, procs: nat, store: Vectors, orders: nat -> seq<Id>, ghost queries: seq<Query>)
    requires procs > 0 && forall n :: Enumerates(orders(n), store.Keys)
    requires AllHold(prepared[..], queries, Scanned(store, queries, {}, 0, 0))
    modifies prepared
    ensures AllHold(prepared[..], queries, Scanned(store, queries, store.Keys, 0, prepared.Length))
  {
    var chunkSize := ChunkSize(prepared.Length, procs);
    var start := 0;
    while start < prepared.Length
      invariant start <= prepared.Length
      invariant AllHold(prepared[..], queries, Scanned(store, queries, {}, start, start))
    {
      var end := Min(start + chunkSize, prepared.Length);
      NextChunk(store, queries, start, start, end);
      ScanExactBatch(prepared, start, end, store, orders(start), queries);
      NextChunk(store, queries, start, end, end);
      start := end;
    }
    NextChunk(store, queries, 0, prepared.Length, prepared.Length);
  }

  ghost predicate SawEverything(p: Prepared, query: Query, store: Vectors) {
    Accumulated(p, query, multiset(Candidates(store, store.Keys, query.vals32)))
  }

  lemma ScannedAll(prepared: seq<Prepared>, queries: seq<Query>, store: Vectors)
    requires AllHold(prepared, queries, Scanned(store, queries, store.Keys, 0, |prepared|))
    ensures |prepared| == |queries| && forall i | 0 <= i < |queries| :: SawEverything(prepared[i], queries[i], store)
  {
  }

  ghost predicate BatchAnswer(store: Vectors, queries: seq<Query>, sqrt: real -> real, out: seq<seq<Hit>>) {
    && |out| == |queries|
    && forall i | 0 <= i < |queries| :: IsExact(store, queries[i].vals32, queries[i].k, sqrt, out[i])
  }

  lemma AnsweredOneMore(store: Vectors, queries: seq<Query>, sqrt: real -> real, out: seq<seq<Hit>>, hits: seq<Hit>)
    requires |out| < |queries| && BatchAnswer(store, queries[..|out|], sqrt, out)
    requires IsExact(store, queries[|out|].vals32, queries[|out|].k, sqrt, hits)
    ensures BatchAnswer(store, queries[..|out| + 1], sqrt, out + [hits])
  {
  }

  /** The accumulators of a batch that has seen everything, drained in query order. */
  method BatchResults(prepared: seq<Prepared>, ghost queries: seq<Query>, ghost store: Vectors, sqrt: real -> real) returns (out: seq<seq<Hit>>)
    requires |prepared| == |queries| && forall i | 0 <= i < |queries| :: SawEverything(prepared[i], queries[i], store)
    ensures BatchAnswer(store, queries, sqrt, out)
  {
    out := [];
    for i := 0 to |prepared|
      invariant BatchAnswer(store, queries[..i], sqrt, out)
    {
      var hits := OneResult(prepared[i], queries[i], store, sqrt);
      AnsweredOneMore(store, queries, sqrt, out, hits);
      out := out + [hits];
    }
    assert queries[..|prepared|] == queries;
  }

  method OneResult(p: Prepared, ghost query: Query, ghost store: Vectors, sqrt: real -> real) returns (out: seq<Hit>)
    requires SawEverything(p, query, store)
    ensures IsExact(store, query.vals32, query.k, sqrt, out)
  {
    ghost var ranked;
    out, ranked := Results(p.acc, sqrt, multiset(Candidates(store, store.Keys, query.vals32)));
    assert ExactAnswer(store, query.vals32, query.k, ranked);
  }

  /** Each query of a batch gets the distance list that it would get on its own. */
  lemma BatchAgreesWithSingle(store: Vectors, queries: seq<Query>, sqrt: real -> real, out: seq<seq<Hit>>, i: nat, single: seq<Hit>)
    requires BatchAnswer(store, queries, sqrt, out) && i < |queries|
    requires IsExact(store, queries[i].vals32, queries[i].k, sqrt, single)
    ensures |out[i]| == |single| && forall j | 0 <= j < |single| :: out[i][j].distance == single[j].distance
  {
    ExactAgree(store, queries[i].vals32, queries[i].k, sqrt, out[i], single);
  }

  method ScanExact(prepared: array<Prepared>, procs: nat, store: Vectors, orders: nat -> seq<Id>, ghost queries: seq<Query>)
    requires procs > 0 && forall n :: Enumerates(orders(n), store.Keys)
    requires AllHold(prepared[..], queries, Scanned(store, queries, {}, 0, 0))
    modifies prepared
    ensures AllHold(prepared[..], queries, Scanned(store, queries, store.Keys, 0, prepared.Length))
  {
    if prepared.Length >= WIDTH * 2 && procs > 1 {
      ScanExactParallel(prepared, procs, store, orders, queries);
    } else {
      NextChunk(store, queries, 0, 0, prepared.Length);
      ScanExactBatch(prepared, 0, prepared.Length, store, orders(0), queries);
    }
  }

  /** Every query of an exact batch gets an exact answer, whatever the other queries are. */
  method SearchBatchExact(queries: seq<Query>, procs: nat, store: Vectors, orders: nat -> seq<Id>, sqrt: real -> real) returns (out: seq<seq<Hit>>)
    requires procs > 0 && forall n :: Enumerates(orders(n), store.Keys)
    ensures BatchAnswer(store, queries, sqrt, out)
  {
    var prepared := new Prepared[|queries|](i requires 0 <= i < |queries| => Prepared(queries[i], NewTopK(queries[i].k)));
    assert forall i | 0 <= i < |queries| :: Accumulated(prepared[..][i], queries[i], multiset{});
    ScanExact(prepared, procs, store, orders, queries);
    ScannedAll(prepared[..], queries, store);
    out := BatchResults(prepared[..], queries, store, sqrt);
  }
}
