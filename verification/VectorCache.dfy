/**
  The LRU, TTL and byte-bounded cache in front of a vector store
  (internal/core/cached_vector_store.go). Each call is one atomic step, and the clock reading
  it uses is a parameter.
 */
module VectorCache {
  import opened Ordering
  import opened Distance
  import opened VectorStores
  import opened Recency

  datatype Entry = Entry(values: Vec, expiresAt: Option<int>, sizeBytes: nat)

  type Entries = map<Id, Entry>

  function EstimateSize(id: Id, values: Vec): nat {
    |id| + |values| * 4
  }

  ghost function TotalSize(entries: Entries, order: seq<Id>): nat
    requires Elements(order) <= entries.Keys
  {
    if order == [] then 0
    else
      var n := |order| - 1;
      assert order[n] in Elements(order);
      TotalSize(entries, order[..n]) + entries[order[n]].sizeBytes
  }

  lemma {:induction false} TotalOfSame(a: Entries, b: Entries, order: seq<Id>)
    requires Elements(order) <= a.Keys && Elements(order) <= b.Keys
    requires forall id | id in order :: a[id].sizeBytes == b[id].sizeBytes
    ensures TotalSize(a, order) == TotalSize(b, order)
  {
    if order != [] {
      var n := |order| - 1;
      assert order[n] in Elements(order);
      TotalOfSame(a, b, order[..n]);
    }
  }

  lemma {:induction false} TotalPrepend(entries: Entries, id: Id, order: seq<Id>)
    requires Elements([id] + order) <= entries.Keys
    ensures id in entries && Elements(order) <= entries.Keys
    ensures TotalSize(entries, [id] + order) == entries[id].sizeBytes + TotalSize(entries, order)
  {
    assert id in Elements([id] + order);
    assert forall x | x in order :: x in [id] + order;
    if order != [] {
      var n := |order| - 1;
      assert ([id] + order)[..n + 1] == [id] + order[..n];
      TotalPrepend(entries, id, order[..n]);
    } else {
      assert ([id] + order)[..0] == [];
    }
  }

  lemma {:induction false} TotalWithout(entries: Entries, order: seq<Id>, id: Id)
    requires NoDuplicates(order) && Elements(order) <= entries.Keys && id in order
    ensures Elements(Without(order, id)) <= entries.Keys
    ensures TotalSize(entries, order) == TotalSize(entries, Without(order, id)) + entries[id].sizeBytes
  {
    var head, tail := order[0], order[1..];
    assert order == [head] + tail && Elements(tail) <= Elements(order);
    assert head in Elements(order);
    TotalPrepend(entries, head, tail);
    if head == id {
      assert id !in tail;
    } else {
      TotalWithout(entries, tail, id);
      TotalPrepend(entries, head, Without(tail, id));
    }
  }

  /** Map and list hold the same ids, sizes are right, and the byte count is their sum. */
  ghost predicate Consistent(entries: Entries, order: seq<Id>, currentBytes: int) {
    && NoDuplicates(order) && Elements(order) == entries.Keys
    && currentBytes == TotalSize(entries, order)
    && forall id | id in entries :: entries[id].sizeBytes == |id| + 4 * |entries[id].values|
  }

  /** Every entry is the stored value of an id that is still stored. */
  ghost predicate Coherent(entries: Entries, vectors: Vectors) {
    forall id | id in entries :: id in vectors && entries[id].values == vectors[id]
  }

  lemma RemovedIsConsistent(entries: Entries, order: seq<Id>, currentBytes: int, id: Id)
    requires Consistent(entries, order, currentBytes) && id in entries
    ensures Consistent(entries - {id}, Without(order, id), currentBytes - entries[id].sizeBytes)
  {
    assert id in Elements(order);
    TotalWithout(entries, order, id);
    TotalOfSame(entries, entries - {id}, Without(order, id));
    assert Elements(Without(order, id)) == (entries - {id}).Keys;
  }

  lemma AddedIsConsistent(entries: Entries, order: seq<Id>, currentBytes: int, id: Id, entry: Entry)
    requires Consistent(entries, order, currentBytes) && id !in entries && entry.sizeBytes == EstimateSize(id, entry.values)
    ensures Consistent(entries[id := entry], [id] + order, currentBytes + entry.sizeBytes)
  {
    var entries' := entries[id := entry];
    assert id !in Elements(order);
    assert Elements([id] + order) == entries'.Keys;
    TotalPrepend(entries', id, order);
    TotalOfSame(entries, entries', order);
  }

  lemma MovedIsConsistent(entries: Entries, order: seq<Id>, currentBytes: int, id: Id)
    requires Consistent(entries, order, currentBytes) && id in entries
    ensures Consistent(entries, ToFront(order, id), currentBytes)
  {
    RemovedIsConsistent(entries, order, currentBytes, id);
    AddedIsConsistent(entries - {id}, Without(order, id), currentBytes - entries[id].sizeBytes, id, entries[id]);
    assert (entries - {id})[id := entries[id]] == entries;
  }

  lemma ReplacedIsConsistent(entries: Entries, order: seq<Id>, currentBytes: int, id: Id, entry: Entry)
    requires Consistent(entries, order, currentBytes) && id in entries && entry.sizeBytes == EstimateSize(id, entry.values)
    ensures Consistent(entries[id := entry], ToFront(order, id), currentBytes - entries[id].sizeBytes + entry.sizeBytes)
  {
    RemovedIsConsistent(entries, order, currentBytes, id);
    AddedIsConsistent(entries - {id}, Without(order, id), currentBytes - entries[id].sizeBytes, id, entry);
    assert (entries - {id})[id := entry] == entries[id := entry];
  }

  lemma DroppedIsConsistent(entries: Entries, order: seq<Id>, currentBytes: int)
    requires Consistent(entries, order, currentBytes) && order != []
    ensures order[|order| - 1] in entries
    ensures Consistent(entries - {order[|order| - 1]}, order[..|order| - 1], currentBytes - entries[order[|order| - 1]].sizeBytes)
  {
    var n := |order| - 1;
    DropOldest(order);
    assert order[n] in Elements(order);
    TotalOfSame(entries, entries - {order[n]}, order[..n]);
  }

  /** The k most recent entries fit both limits. */
  ghost predicate Fits(entries: Entries, order: seq<Id>, k: nat, maxItems: nat, maxBytes: nat)
    requires k <= |order| && Elements(order) <= entries.Keys
  {
    assert forall id | id in order[..k] :: id in Elements(order);
    k <= maxItems && TotalSize(entries, order[..k]) <= maxBytes
  }

  /** `kept` is the longest most-recent prefix that fits. */
  ghost predicate LongestFit(entries: Entries, order: seq<Id>, kept: seq<Id>, maxItems: nat, maxBytes: nat)
    requires Elements(order) <= entries.Keys
  {
    && |kept| <= |order| && kept == order[..|kept|]
    && Fits(entries, order, |kept|, maxItems, maxBytes)
    && forall k | |kept| < k <= |order| :: !Fits(entries, order, k, maxItems, maxBytes)
  }

  /** What eviction keeps of the map. */
  ghost predicate SubEntries(entries: Entries, entries0: Entries) {
    forall id | id in entries :: id in entries0 && entries[id] == entries0[id]
  }

  lemma GuardIsFit(entries0: Entries, order0: seq<Id>, entries: Entries, order: seq<Id>, currentBytes: int, maxItems: nat, maxBytes: nat)
    requires Elements(order0) <= entries0.Keys && SubEntries(entries, entries0)
    requires Consistent(entries, order, currentBytes) && |order| <= |order0| && order == order0[..|order|]
    ensures Fits(entries0, order0, |order|, maxItems, maxBytes) <==> |entries| <= maxItems && currentBytes <= maxBytes
  {
    NoDuplicatesCount(order);
    TotalOfSame(entries, entries0, order);
  }

  /** Eviction has only removed what no allowed prefix could keep. */
  ghost predicate Evicting(entries0: Entries, order0: seq<Id>, entries: Entries, order: seq<Id>, currentBytes: int, maxItems: nat, maxBytes: nat) {
    && Elements(order0) <= entries0.Keys
    && Consistent(entries, order, currentBytes) && SubEntries(entries, entries0)
    && |order| <= |order0| && order == order0[..|order|]
    && forall k | |order| < k <= |order0| :: !Fits(entries0, order0, k, maxItems, maxBytes)
  }

  lemma EvictingStep(entries0: Entries, order0: seq<Id>, entries: Entries, order: seq<Id>, currentBytes: int,
                     entries': Entries, currentBytes': int, maxItems: nat, maxBytes: nat)
    requires Evicting(entries0, order0, entries, order, currentBytes, maxItems, maxBytes) && order != []
    requires |entries| > maxItems || currentBytes > maxBytes
    requires Consistent(entries', order[..|order| - 1], currentBytes') && SubEntries(entries', entries)
    ensures Evicting(entries0, order0, entries', order[..|order| - 1], currentBytes', maxItems, maxBytes)
  {
    GuardIsFit(entries0, order0, entries, order, currentBytes, maxItems, maxBytes);
    var n := |order| - 1;
    assert order[..n] == order0[..n];
    forall k | n < k <= |order0|
      ensures !Fits(entries0, order0, k, maxItems, maxBytes)
    {
      assert k == |order| || |order| < k;
    }
  }

  method Evict(entries0: Entries, order0: seq<Id>, currentBytes0: int, maxItems: nat, maxBytes: nat)
    returns (entries: Entries, order: seq<Id>, currentBytes: int)
    requires Consistent(entries0, order0, currentBytes0)
    ensures Consistent(entries, order, currentBytes) && SubEntries(entries, entries0)
    ensures LongestFit(entries0, order0, order, maxItems, maxBytes)
  {
    entries, order, currentBytes := entries0, order0, currentBytes0;
    assert order0[..|order0|] == order0;
    while |entries| > maxItems || currentBytes > maxBytes
      invariant Evicting(entries0, order0, entries, order, currentBytes, maxItems, maxBytes)
      decreases |order|
    {
      NotEmpty(entries, order, currentBytes, maxItems, maxBytes);
      var entries', order', currentBytes' := DropLast(entries, order, currentBytes);
      EvictingStep(entries0, order0, entries, order, currentBytes, entries', currentBytes', maxItems, maxBytes);
      entries, order, currentBytes := entries', order', currentBytes';
    }
    GuardIsFit(entries0, order0, entries, order, currentBytes, maxItems, maxBytes);
  }

  /** A cache over its limits is not empty, so eviction always has an entry to remove. */
  lemma NotEmpty(entries: Entries, order: seq<Id>, currentBytes: int, maxItems: nat, maxBytes: nat)
    requires Consistent(entries, order, currentBytes) && (|entries| > maxItems || currentBytes > maxBytes)
    ensures order != []
  {
    NoDuplicatesCount(order);
  }

  method DropLast(entries0: Entries, order0: seq<Id>, currentBytes0: int) returns (entries: Entries, order: seq<Id>, currentBytes: int)
    requires Consistent(entries0, order0, currentBytes0) && order0 != []
    ensures Consistent(entries, order, currentBytes) && SubEntries(entries, entries0) && order == order0[..|order0| - 1]
  {
    DroppedIsConsistent(entries0, order0, currentBytes0);
    var last := order0[|order0| - 1];
    entries, order, currentBytes := entries0 - {last}, order0[..|order0| - 1], currentBytes0 - entries0[last].sizeBytes;
  }

  lemma EvictedIsCoherent(entries: Entries, entries0: Entries, m: Vectors)
    requires SubEntries(entries, entries0) && Coherent(entries0, m)
    ensures Coherent(entries, m)
  {
  }

  /** What is left of `before`, most recent first, once both limits are enforced. */
  ghost predicate Evicted(before: Entries, front: seq<Id>, kept: seq<Id>, maxItems: nat, maxBytes: nat) {
    Elements(front) <= before.Keys && LongestFit(before, front, kept, maxItems, maxBytes)
  }

  method PutEntry(entries0: Entries, order0: seq<Id>, bytes0: int, id: Id, entry: Entry, maxItems: nat, maxBytes: nat)
    returns (entries: Entries, order: seq<Id>, bytes: int)
    requires Consistent(entries0, order0, bytes0) && entry.sizeBytes == EstimateSize(id, entry.values)
    ensures Consistent(entries, order, bytes) && |entries| <= maxItems && bytes <= maxBytes
    ensures SubEntries(entries, entries0[id := entry])
    ensures Evicted(entries0[id := entry], ToFront(order0, id), order, maxItems, maxBytes)
  {
    bytes := bytes0 + entry.sizeBytes;
    if id in entries0 {
      ReplacedIsConsistent(entries0, order0, bytes0, id, entry);
      bytes := bytes - entries0[id].sizeBytes;
    } else {
      assert id !in Elements(order0);
      AddedIsConsistent(entries0, order0, bytes0, id, entry);
    }
    entries, order, bytes := Evict(entries0[id := entry], ToFront(order0, id), bytes, maxItems, maxBytes);
    GuardIsFit(entries0[id := entry], ToFront(order0, id), entries, order, bytes, maxItems, maxBytes);
  }

  /** What the cache holds, most recent first. */
  datatype State = State(entries: Entries, order: seq<Id>)

  class CachedVectorStore {
    const backend: MemoryVectorStore
    const maxBytes: nat
    const maxItems: nat
    const ttl: int
    var entries: Entries
    var order: seq<Id>
    var currentBytes: int

    ghost predicate Structured()
      reads this
    {
      Consistent(entries, order, currentBytes) && |entries| <= maxItems && currentBytes <= maxBytes
    }

    ghost predicate Valid()
      reads this, backend, backend.ids
    {
      backend.Valid() && Structured() && Coherent(entries, backend.vectors)
    }

    constructor (backend: MemoryVectorStore, maxBytes: int, maxItems: int, ttl: int)
      requires backend.Valid()
      ensures Valid() && this.backend == backend && entries == map[] && order == []
      ensures this.maxBytes == (if maxBytes <= 0 then 8 * 1024 * 1024 else maxBytes) && this.maxItems == (if maxItems <= 0 then 1024 else maxItems)
      ensures this.ttl == ttl
    {
      this.backend := backend;
      this.maxBytes := if maxBytes <= 0 then 0x80_0000 else maxBytes;
      this.maxItems := if maxItems <= 0 then 1024 else maxItems;
      this.ttl := ttl;
      entries, order, currentBytes := map[], [], 0;
    }

    function NextExpiry(now: int): Option<int> {
      if ttl <= 0 then None else Some(now + ttl)
    }

    function EntryOf(id: Id, values: Vec, now: int): Entry {
      Entry(values, NextExpiry(now), EstimateSize(id, values))
    }

    /** putLocked32; `m` is the backend map that the entries reflect so far. */
    method Put(id: Id, values: Vec, now: int, ghost m: Vectors)
      requires Structured() && Coherent(entries, m)
      modifies this
      ensures Structured() && Coherent(entries, m[id := values])
      ensures Took(old(Cached()), id, values, now, Cached())
    {
      var kept, keptBytes := Keep(id, values, now, m);
      Install(kept, keptBytes);
    }

    method Install(kept: State, keptBytes: int)
      modifies this
      ensures Cached() == kept && currentBytes == keptBytes
    {
      entries, order, currentBytes := kept.entries, kept.order, keptBytes;
    }

    method Keep(id: Id, values: Vec, now: int, ghost m: Vectors) returns (kept: State, keptBytes: int)
      requires Structured() && Coherent(entries, m)
      ensures Consistent(kept.entries, kept.order, keptBytes) && |kept.entries| <= maxItems && keptBytes <= maxBytes
      ensures Coherent(kept.entries, m[id := values]) && Took(Cached(), id, values, now, kept)
    {
      var entry := EntryOf(id, values, now);
      var keptEntries, keptOrder;
      keptEntries, keptOrder, keptBytes := PutEntry(entries, order, currentBytes, id, entry, maxItems, maxBytes);
      kept := State(keptEntries, keptOrder);
      EvictedIsCoherent(keptEntries, entries[id := entry], m[id := values]);
      TookWhatIsKept(entries, order, id, values, now, keptEntries, keptOrder);
    }

    lemma TookWhatIsKept(entries0: Entries, order0: seq<Id>, id: Id, values: Vec, now: int, kept: Entries, keptOrder: seq<Id>)
      requires SubEntries(kept, entries0[id := EntryOf(id, values, now)]) && Elements(keptOrder) == kept.Keys
      requires Evicted(entries0[id := EntryOf(id, values, now)], ToFront(order0, id), keptOrder, maxItems, maxBytes)
      ensures Took(State(entries0, order0), id, values, now, State(kept, keptOrder))
    {
    }

    method Remove(id: Id)
      requires Structured()
      modifies this
      ensures Structured() && entries == old(entries) - {id} && order == Without(old(order), id)
    {
      if id in entries {
        RemovedIsConsistent(entries, order, currentBytes, id);
        NoDuplicatesCount(order);
        NoDuplicatesCount(Without(order, id));
        currentBytes := currentBytes - entries[id].sizeBytes;
        entries, order := entries - {id}, Without(order, id);
      } else {
        assert entries - {id} == entries;
        assert id !in Elements(order);
      }
    }

    predicate IsExpired(entry: Entry, now: int) {
      entry.expiresAt.Some? && now > entry.expiresAt.value
    }

    /** An entry answers for ttl after it was put, and for ever when there is no positive ttl. */
    lemma LivesForTtl(id: Id, values: Vec, put: int, now: int)
      ensures EntryOf(id, values, put).values == values
      ensures IsExpired(EntryOf(id, values, put), now) <==> ttl > 0 && now > put + ttl
    {
    }

    /** The cache after a vector has been put: the longest most-recent run that fits, with the vector in front. */
    ghost predicate Took(before: State, id: Id, values: Vec, now: int, after: State) {
      && Evicted(before.entries[id := EntryOf(id, values, now)], ToFront(before.order, id), after.order, maxItems, maxBytes)
      && SubEntries(after.entries, before.entries[id := EntryOf(id, values, now)]) && after.entries.Keys == Elements(after.order)
    }

    ghost function Cached(): State
      reads this
    {
      State(entries, order)
    }

    /** A hit, which moves the entry to the front, unless the entry has expired, in which case it is dropped. */
    method GetCached(id: Id, now: int) returns (r: Option<Vec>)
      requires Structured()
      modifies this
      ensures Structured()
      ensures r.Some? <==> id in old(entries) && !IsExpired(old(entries)[id], now)
      ensures r.Some? ==> r.value == old(entries)[id].values && entries == old(entries) && order == ToFront(old(order), id)
      ensures r.None? ==> entries == old(entries) - {id} && order == Without(old(order), id)
    {
      if id !in entries {
        assert entries - {id} == entries;
        assert id !in Elements(order);
        return None;
      }
      var entry := entries[id];
      if IsExpired(entry, now) {
        Remove(id);
        return None;
      }
      MovedIsConsistent(entries, order, currentBytes, id);
      order := ToFront(order, id);
      r := Some(entry.values);
    }

    /**
      A read gives exactly what the backend would give, hit, miss, expired or evicted; a hit moves
      its entry to the front, and what a miss fetches is put into the cache.
     */
    method GetVector(id: Id, now: int, refill: int) returns (r: Option<Vector>)
      requires Valid()
      modifies this
      ensures Valid()
      ensures r == if id in backend.vectors then Some(Vector(id, backend.vectors[id])) else None
      ensures if id in old(entries) && !IsExpired(old(entries)[id], now)
              then entries == old(entries) && order == ToFront(old(order), id)
              else
                var missed := State(old(entries) - {id}, Without(old(order), id));
                if r.Some? then Took(missed, id, r.value.values, refill, Cached()) else Cached() == missed
    {
      var cached := GetCached(id, now);
      if cached.Some? {
        return Some(Vector(id, cached.value));
      }
      r := backend.GetVector(id);
      if r.Some? {
        Refill(id, r.value.values, refill);
      }
    }

    method Refill(id: Id, values: Vec, now: int)
      requires Valid() && id in backend.vectors && values == backend.vectors[id]
      modifies this
      ensures Valid() && Took(old(Cached()), id, values, now, Cached())
    {
      assert backend.vectors[id := values] == backend.vectors;
      Put(id, values, now, backend.vectors);
    }

    /** The cache after the first n vectors of a batch, one put after the other. */
    ghost predicate TookAll(batch: seq<Vector>, now: int, states: seq<State>, n: nat) {
      && n <= |batch| && |states| == n + 1
      && forall i | 0 <= i < n :: Took(states[i], batch[i].id, ToFloat32(backend.narrow, batch[i].values), now, states[i + 1])
    }

    method UpsertVectors(batch: seq<Vector>, now: int) returns (ghost states: seq<State>)
      requires Valid()
      modifies this, backend, backend.ids
      ensures Valid() && backend.vectors == Upserted(old(backend.vectors), backend.narrow, batch)
      ensures TookAll(batch, now, states, |batch|) && states[0] == old(Cached()) && states[|batch|] == Cached()
    {
      if |batch| == 0 {
        return [Cached()];
      }
      ghost var before := backend.vectors;
      backend.UpsertVectors(batch);
      states := PutAll(batch, now, before);
    }

    lemma TookOneMore(batch: seq<Vector>, now: int, states: seq<State>, n: nat, next: State)
      requires n < |batch| && TookAll(batch, now, states, n)
      requires Took(states[n], batch[n].id, ToFloat32(backend.narrow, batch[n].values), now, next)
      ensures TookAll(batch, now, states + [next], n + 1)
    {
    }

    /** The batch goes into the cache after the backend has taken it. */
    method PutAll(batch: seq<Vector>, now: int, ghost before: Vectors) returns (ghost states: seq<State>)
      requires Structured() && Coherent(entries, before)
      modifies this
      ensures Structured() && Coherent(entries, Upserted(before, backend.narrow, batch))
      ensures TookAll(batch, now, states, |batch|) && states[0] == old(Cached()) && states[|batch|] == Cached()
    {
      states := [Cached()];
      for i := 0 to |batch|
        invariant Structured() && Coherent(entries, Upserted(before, backend.narrow, batch[..i]))
        invariant TookAll(batch, now, states, i) && states[0] == old(Cached()) && states[i] == Cached()
      {
        PutNext(batch, i, now, before);
        TookOneMore(batch, now, states, i, Cached());
        states := states + [Cached()];
      }
      assert batch[..|batch|] == batch;
    }

    method PutNext(batch: seq<Vector>, i: nat, now: int, ghost before: Vectors)
      requires i < |batch| && Structured() && Coherent(entries, Upserted(before, backend.narrow, batch[..i]))
      modifies this
      ensures Structured() && Coherent(entries, Upserted(before, backend.narrow, batch[..i + 1]))
      ensures Took(old(Cached()), batch[i].id, ToFloat32(backend.narrow, batch[i].values), now, Cached())
    {
      assert batch[..i + 1][..i] == batch[..i];
      Put(batch[i].id, ToFloat32(backend.narrow, batch[i].values), now, Upserted(before, backend.narrow, batch[..i]));
    }

    method DeleteVector(id: Id) returns (found: bool)
      requires Valid()
      modifies this, backend, backend.ids
      ensures Valid() && found == (id in old(backend.vectors)) && backend.vectors == old(backend.vectors) - {id}
      ensures Cached() == if found then State(old(entries) - {id}, Without(old(order), id)) else old(Cached())
    {
      found := backend.DeleteVector(id);
      if found {
        Remove(id);
      }
    }
  }
}
