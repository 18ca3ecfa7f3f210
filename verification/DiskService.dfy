/**
  A service over the file store (internal/core/service.go:817-824, 978-993): there is no
  snapshot and no write-ahead log, and a restart rebuilds index, resolver and graph from the
  vectors that the record log still holds.
 */
module DiskServices {
  import opened Distance
  import opened VectorStores
  import opened Wal
  import opened IdResolvers
  import opened ExactIndexes
  import opened AnnIndexes
  import opened ServiceState
  import opened Services
  import opened RecordCodec
  import opened VectorLog
  import opened FileVectorStores

  /** How the bytes of an id are a name, which can be turned back, and the bits of a component a number. */
  datatype Reading = Reading(name: Bytes -> Id, bytes: Id -> Bytes, value: Float64 -> real) {
    ghost predicate OneToOne() {
      forall id :: bytes(name(id)) == id
    }

    /** Different ids have different names, and a stored value is already in stored precision. */
    ghost predicate Exact(cfg: Config, c: Conversion) {
      OneToOne() && forall x :: Rereads(cfg, c, x)
    }

    predicate Rereads(cfg: Config, c: Conversion, x: Float32) {
      cfg.narrow(value(c.widen(x))) == value(c.widen(x))
    }

    function Read(entry: (Bytes, seq<Float64>)): (v: Vector)
      ensures v.id == name(entry.0) && |v.values| == |entry.1| && forall i | 0 <= i < |entry.1| :: v.values[i] == value(entry.1[i])
    {
      Vector(name(entry.0), seq(|entry.1|, i requires 0 <= i < |entry.1| => value(entry.1[i])))
    }

    /** The stored vectors, as the service sees them. */
    ghost function ReadAll(c: Conversion, m: map<Bytes, Values>): Vectors
      requires OneToOne()
    {
      map id | id in m :: name(id) := Read((id, Widened(c, m[id]))).values
    }
  }

  /** The names are those of the stored ids, and each vector has the numbers of its stored components. */
  lemma ReadsEach(r: Reading, c: Conversion, m: map<Bytes, Values>)
    requires r.OneToOne()
    ensures forall id | id in m :: r.name(id) in r.ReadAll(c, m) && |r.ReadAll(c, m)[r.name(id)]| == |m[id]|
    ensures forall id, i | id in m && 0 <= i < |m[id]| :: r.ReadAll(c, m)[r.name(id)][i] == r.value(c.widen(m[id][i]))
    ensures forall name | name in r.ReadAll(c, m) :: r.bytes(name) in m && r.name(r.bytes(name)) == name
  {
  }

  lemma ReadIsNarrow(r: Reading, cfg: Config, c: Conversion, m: map<Bytes, Values>)
    requires r.Exact(cfg, c)
    ensures IsNarrowed(r.ReadAll(c, m), cfg.narrow)
  {
    forall id | id in m
      ensures var v := r.Read((id, Widened(c, m[id]))).values; ToFloat32(cfg.narrow, v) == v
    {
      var v := r.Read((id, Widened(c, m[id]))).values;
      forall i | 0 <= i < |v|
        ensures cfg.narrow(v[i]) == v[i]
      {
        assert r.Rereads(cfg, c, m[id][i]);
      }
    }
  }

  /** The vectors of the file, as the loop of loadVectorStoreState gets them. */
  method ReadList(r: Reading, c: Conversion, entries: seq<(Bytes, seq<Float64>)>, ghost live: seq<(Bytes, Values)>, ghost m: map<Bytes, Values>)
    returns (list: seq<Vector>)
    requires r.OneToOne() && Lists(live, m) && entries == WidenAll(c, live)
    ensures ListsAll(list, r.ReadAll(c, m))
  {
    list := seq(|entries|, i requires 0 <= i < |entries| => r.Read(entries[i]));
    ListIsRead(r, c, live, m, list);
  }

  lemma ListIsRead(r: Reading, c: Conversion, live: seq<(Bytes, Values)>, m: map<Bytes, Values>, list: seq<Vector>)
    requires r.OneToOne() && Lists(live, m)
    requires |list| == |live| && forall i | 0 <= i < |live| :: list[i] == r.Read((live[i].0, Widened(c, live[i].1)))
    ensures ListsAll(list, r.ReadAll(c, m))
  {
    forall v | v in list
      ensures v.id in r.ReadAll(c, m) && r.ReadAll(c, m)[v.id] == v.values
    {
      var i :| 0 <= i < |list| && list[i] == v;
      assert live[i] in live && live[i].0 in FileVectorStores.IdsOf(live);
    }
    forall id | id in m
      ensures r.name(id) in ListedIds(list)
    {
      assert id in FileVectorStores.IdsOf(live);
      var entry :| entry in live && entry.0 == id;
      var i :| 0 <= i < |live| && live[i] == entry;
      assert list[i] in list;
    }
  }

  /** A vector that comes new into a graph's map: the first one sets the dimension, one of another dimension is left out. */
  lemma TakenNext(m: Vectors, dim: nat, id: Id, v: Vec)
    requires id !in m && |v| > 0 && TakenFrom(m, dim) && (dim == 0 ==> m == map[])
    ensures var next := if dim == 0 then |v| else dim;
      && TakenFrom(m[id := v], next)
      && OfDim(m[id := v], next) == if |v| == next then OfDim(m, dim)[id := v] else OfDim(m, dim)
  {
    var next := if dim == 0 then |v| else dim;
    NextOfDim(m, id, v, next);
    if |v| == next {
      assert id in m[id := v] && |m[id := v][id]| == next;
    } else {
      var other :| other in m && |m[other]| == dim;
      assert m[id := v][other] == m[other];
    }
  }

  class DiskService {
    const cfg: Config
    const reading: Reading
    const index: ExactIndex
    const store: FileVectorStore
    const resolver: IdResolver
    const ann: AnnIndex

    /** NewServiceWithDeps up to the restore: an opened file beside empty structures. */
    constructor (cfg: Config, annOptions: AnnOptions, reading: Reading, store: FileVectorStore)
      requires store.Valid() && reading.Exact(cfg, store.c)
      ensures Structures() && index.vectors == map[] && Mirrored(map[]) && ann.dim == 0
      ensures this.cfg == cfg && this.reading == reading && this.store == store && TunedBy(ann, annOptions)
      ensures fresh(index) && fresh(resolver) && BrandNew(ann)
    {
      this.cfg, this.reading, this.store := cfg, reading, store;
      index := new ExactIndex(cfg.narrow);
      resolver := new IdResolver();
      ann := new AnnIndex(annOptions.m, annOptions.efConstruction, annOptions.efSearch, cfg.narrow);
    }

    ghost predicate Structures()
      reads index, store, resolver, ann, ann.pool, ann.pool.visitedMarks
    {
      index.narrow == ann.narrow == cfg.narrow && Readable() && resolver.Valid() && ann.Valid()
    }

    ghost predicate Readable()
      reads store
    {
      store.Valid() && reading.Exact(cfg, store.c)
    }

    ghost predicate Mirrored(m: Vectors)
      reads resolver, ann, ann.pool, ann.pool.visitedMarks
    {
      ann.Valid() && resolver.Valid() && ann.narrow == cfg.narrow && Mirrors(m, resolver.idToInternal, resolver.internalToID, ann.Live())
    }

    /** What the file holds. */
    ghost function Stored(): Vectors
      requires Readable()
      reads store
    {
      reading.ReadAll(store.c, store.Map())
    }

    /** The graph holds those vectors of m that have its dimension, which is that of one of them. */
    ghost predicate Taken(m: Vectors)
      reads resolver, ann, ann.pool, ann.pool.visitedMarks
    {
      Mirrored(OfDim(m, ann.dim)) && TakenFrom(m, ann.dim)
    }

    /** The index has every storable vector of the file, and the graph those of its dimension. */
    ghost predicate Restored()
      reads index, store, resolver, ann, ann.pool, ann.pool.visitedMarks
    {
      Structures() && index.vectors == Loaded(cfg, Some(Stored())) && Taken(index.vectors)
    }

    /** All four structures hold the same vectors. */
    ghost predicate Agree()
      reads index, store, resolver, ann, ann.pool, ann.pool.visitedMarks
    {
      Structures() && index.vectors == Stored() && Mirrored(index.vectors)
    }

    /** One vector of the file into index, resolver and graph, unless it is skipped. */
    method LoadNext(ghost stored: Vectors, list: seq<Vector>, i: nat)
      requires index.narrow == cfg.narrow && ListsAll(list, stored) && i < |list|
      requires Taken(index.vectors) && Sound(cfg, index.vectors) && index.vectors == LoadedPart(cfg, stored, ListedIds(list[..i]))
      modifies index, resolver, ann, ann.pool, ann.pool.visitedMarks
      ensures Taken(index.vectors) && Sound(cfg, index.vectors) && index.vectors == LoadedPart(cfg, stored, ListedIds(list[..i + 1]))
      ensures ann.OwnsAsBefore()
    {
      LoadedOneMore(cfg, stored, list, i);
      if list[i].id == "" || |list[i].values| == 0 || |list[i].values| > cfg.maxVectorDim {
        return;
      }
      LoadOne(list[i]);
    }

    method LoadOne(vec: Vector)
      requires index.narrow == cfg.narrow && Storable(cfg, vec.id, vec.values) && vec.id !in index.vectors
      requires Taken(index.vectors) && Sound(cfg, index.vectors)
      modifies index, resolver, ann, ann.pool, ann.pool.visitedMarks
      ensures Taken(index.vectors) && Sound(cfg, index.vectors) && ann.OwnsAsBefore()
      ensures index.vectors == old(index.vectors)[vec.id := ToFloat32(cfg.narrow, vec.values)]
    {
      NarrowTwice(cfg.narrow, vec.values);
      AddToGraph(vec, index.vectors);
      var present := index.AddVector(vec);
    }

    method AddToGraph(vec: Vector, ghost m: Vectors)
      requires vec.id !in m && |vec.values| > 0 && Taken(m) && Sound(cfg, m)
      modifies resolver, ann, ann.pool, ann.pool.visitedMarks
      ensures Taken(m[vec.id := ToFloat32(cfg.narrow, vec.values)]) && ann.OwnsAsBefore()
    {
      ghost var dim := ann.dim;
      TakenNext(m, dim, vec.id, ToFloat32(cfg.narrow, vec.values));
      var ignored := AddMirrored(vec, resolver, ann, OfDim(m, dim));
    }

    /** loadVectorStoreState, whose graph refuses a second dimension without an error. */
    method LoadVectorStoreState()
      requires Structures() && store.isOpen && index.vectors == map[] && Mirrored(map[]) && ann.dim == 0
      modifies index, resolver, ann, ann.pool, ann.pool.visitedMarks
      ensures Restored() && ann.OwnsAsBefore()
    {
      var list := ListStored();
      LoadList(list, Stored());
    }

    method ListStored() returns (list: seq<Vector>)
      requires Readable() && store.isOpen
      ensures ListsAll(list, Stored())
    {
      var entries; ghost var live;
      entries, live := store.ListVectors();
      list := ReadList(reading, store.c, entries, live, store.Map());
    }

    method LoadList(list: seq<Vector>, ghost stored: Vectors)
      requires index.narrow == cfg.narrow && index.vectors == map[] && Mirrored(map[]) && ann.dim == 0 && ListsAll(list, stored)
      modifies index, resolver, ann, ann.pool, ann.pool.visitedMarks
      ensures index.vectors == Loaded(cfg, Some(stored)) && Taken(index.vectors) && ann.OwnsAsBefore()
    {
      for i := 0 to |list|
        invariant Taken(index.vectors) && Sound(cfg, index.vectors) && ann.OwnsAsBefore()
        invariant index.vectors == LoadedPart(cfg, stored, ListedIds(list[..i]))
      {
        LoadNext(stored, list, i);
      }
      assert list[..|list|] == list;
      LoadedWhole(cfg, stored, list);
    }

    /** After a restart the structures agree exactly if every stored vector passes the service's checks and all have one dimension. */
    lemma RestoredAgrees()
      requires Restored()
      ensures Agree() <==> AllStorable(cfg, Stored()) && Uniform(Stored())
    {
      ReadIsNarrow(reading, cfg, store.c, store.Map());
      StorableIsLoaded(cfg, Stored());
      UniformIsWhole(index.vectors, ann.dim);
      if Mirrored(index.vectors) {
        MirrorsOne(index.vectors, OfDim(index.vectors, ann.dim), resolver.idToInternal, resolver.internalToID, resolver.nextInternal, ann.Live());
      }
    }
  }

  ghost predicate AllStorable(cfg: Config, m: Vectors) {
    forall id | id in m :: Storable(cfg, id, m[id])
  }

  lemma StorableIsLoaded(cfg: Config, m: Vectors)
    requires IsNarrowed(m, cfg.narrow)
    ensures Loaded(cfg, Some(m)) == m <==> AllStorable(cfg, m)
  {
    if AllStorable(cfg, m) {
      SaveThenLoad(cfg, m);
    }
  }

  method OpenSurviving(syncEvery: int, before: FileVectorStore, file: Bytes) returns (store: FileVectorStore?, ghost k: nat)
    requires before.Valid() && file <= before.file && |file| >= Boundary(before.chunks, before.synced)
    ensures store != null <==> exists j :: 0 <= j <= |before.chunks| && Boundary(before.chunks, j) == |file|
    ensures store != null ==> |before.records| - before.syncEvery < k <= |before.records| && Boundary(before.chunks, k) == |file|
    ensures store != null ==> store.syncEvery == if syncEvery <= 0 then 1 else syncEvery
    ensures store != null ==> fresh(store) && store.Valid() && store.isOpen && store.c == before.c && store.Map() == Contents(before.records[..k])
  {
    store, k := OpenCut(before.c, syncEvery, file, before.chunks, before.records);
    if store != null {
      BoundariesGrow(DecoderOf(before.c), before.chunks, before.records, k, before.synced);
    }
  }

  /**
    A restart after a crash that left `file` of an earlier store's file, with at least what that
    store had synced. It panics exactly when the cut is inside a record; otherwise the service
    holds the first k records, fewer than the earlier store's syncEvery short of all of them.
   */
  method Restart(cfg: Config, annOptions: AnnOptions, reading: Reading, syncEvery: int, before: FileVectorStore, file: Bytes)
    returns (s: DiskService?, ghost k: nat)
    requires before.Valid() && reading.Exact(cfg, before.c) && file <= before.file && |file| >= Boundary(before.chunks, before.synced)
    ensures s != null <==> exists j :: 0 <= j <= |before.chunks| && Boundary(before.chunks, j) == |file|
    ensures s != null ==> |before.records| - before.syncEvery < k <= |before.records| && Boundary(before.chunks, k) == |file|
    ensures s != null ==> s.store.syncEvery == if syncEvery <= 0 then 1 else syncEvery
    ensures s != null ==> TunedBy(s.ann, annOptions)
    ensures s != null ==> s.Restored() && s.cfg == cfg && s.reading == reading && s.store.Map() == Contents(before.records[..k])
  {
    var store;
    store, k := OpenSurviving(syncEvery, before, file);
    if store == null {
      return null, 0;
    }
    s := StartOver(cfg, annOptions, reading, store);
  }

  method StartOver(cfg: Config, annOptions: AnnOptions, reading: Reading, store: FileVectorStore) returns (s: DiskService)
    requires store.Valid() && store.isOpen && reading.Exact(cfg, store.c)
    ensures s.Restored() && s.cfg == cfg && s.reading == reading && s.store == store && TunedBy(s.ann, annOptions)
  {
    s := new DiskService(cfg, annOptions, reading, store);
    s.LoadVectorStoreState();
  }
}
