/**
  The service's write path and search dispatch (internal/core/service.go). Each call is one
  atomic step; each I/O step either succeeds or fails without effect, as `Faults` says.
 */
module Services {
  import opened Ordering
  import opened Distance
  import opened VectorStores
  import opened Wal
  import opened IdResolvers
  import opened ExactIndexes
  import opened AnnIndexes
  import opened AnnSearch
  import opened ExactSearch
  import opened Answers
  import opened ServiceState

  const ANN_DELETE_REBUILD_MIN_DELETED := 1024

  datatype AnnOptions = AnnOptions(m: int, efConstruction: int, efSearch: int)

  /** The index has the options it was asked for, or the defaults for those that are not positive. */
  ghost predicate TunedBy(ann: AnnIndex, o: AnnOptions) {
    && ann.m == (if o.m <= 0 then 16 else o.m)
    && ann.efConstruction == (if o.efConstruction <= 0 then 64 else o.efConstruction)
    && ann.efSearch == (if o.efSearch <= 0 then 64 else o.efSearch)
  }

  twostate predicate BrandNew(new ann: AnnIndex)
    reads ann, ann.pool
  {
    fresh(ann) && fresh(ann.pool) && fresh(ann.pool.visitedMarks)
  }

  class Service {
    const cfg: Config
    const annOptions: AnnOptions
    const snapshotEvery: int
    const maxK: int
    const annMode: bool
    const index: ExactIndex
    const store: MemoryVectorStore
    const resolver: IdResolver
    const persistence: SnapshotWALBackend
    var ann: AnnIndex
    var persistOps: nat

    /** NewServiceWithDeps up to the restore: empty structures over the given disk. */
    constructor (cfg: Config, annOptions: AnnOptions, snapshotEvery: int, maxK: int, annMode: bool, syncEvery: int, disk: Disk)
      requires disk.Valid()
      ensures Valid() && Map() == map[] && persistence.disk == disk && persistence.pendingOps == 0 && persistOps == 0 && ann.dim == 0
      ensures this.cfg == cfg && this.annOptions == annOptions && this.snapshotEvery == snapshotEvery && this.maxK == maxK && this.annMode == annMode
      ensures persistence.syncEvery == if syncEvery <= 0 then 1 else syncEvery
      ensures fresh(index) && fresh(store) && fresh(store.ids) && fresh(resolver) && fresh(persistence) && BrandNew(ann)
    {
      this.cfg, this.annOptions, this.snapshotEvery, this.maxK, this.annMode := cfg, annOptions, snapshotEvery, maxK, annMode;
      index := new ExactIndex(cfg.narrow);
      store := new MemoryVectorStore(cfg.narrow);
      resolver := new IdResolver();
      persistence := new SnapshotWALBackend(syncEvery, disk);
      ann := new AnnIndex(annOptions.m, annOptions.efConstruction, annOptions.efSearch, cfg.narrow);
      persistOps := 0;
    }

    /** What holds of the structures even between the steps of a call. */
    ghost predicate Structures()
      reads this`ann, index, store, store.ids, resolver, ann, ann.pool, ann.pool.visitedMarks
    {
      Stores() && AnnParts()
    }

    ghost predicate Stores()
      reads store, store.ids
    {
      index.narrow == store.narrow == cfg.narrow && store.Valid()
    }

    ghost predicate AnnParts()
      reads this`ann, resolver, ann, ann.pool, ann.pool.visitedMarks
    {
      resolver.Valid() && ann.Valid() && ann.narrow == cfg.narrow && TunedBy(ann, annOptions)
    }

    /** The graph mirrors the given vectors, which all have its dimension. */
    ghost predicate Mirrored(m: Vectors)
      reads this`ann, resolver, ann, ann.pool, ann.pool.visitedMarks
    {
      && ann.Valid() && SameLength(m, ann.dim)
      && Mirrors(m, resolver.idToInternal, resolver.internalToID, ann.Live())
    }

    /** Index and store hold the same vectors, and the graph those of g. */
    ghost predicate Serving(g: Vectors)
      reads this`ann, index, store, store.ids, resolver, ann, ann.pool, ann.pool.visitedMarks
    {
      Structures() && index.vectors == store.vectors && Sound(cfg, index.vectors) && Mirrored(g)
    }

    /** Index, store, resolver and graph hold the same vectors. */
    ghost predicate Agree()
      reads this`ann, index, store, store.ids, resolver, ann, ann.pool, ann.pool.visitedMarks
    {
      Serving(index.vectors)
    }

    ghost predicate Valid()
      reads this`ann, index, store, store.ids, resolver, persistence, ann, ann.pool, ann.pool.visitedMarks
    {
      persistence.Valid() && Agree()
    }

    /** The visible map. */
    ghost function Map(): Vectors
      reads index
    {
      index.vectors
    }

    /** The graph is the one it was, or a new one. */
    twostate predicate AnnAsBefore()
      reads this, ann, ann.pool
    {
      && (ann == old(ann) || fresh(ann)) && (ann.pool == old(ann.pool) || fresh(ann.pool))
      && (ann.pool.visitedMarks == old(ann.pool.visitedMarks) || fresh(ann.pool.visitedMarks))
    }

    /** A graph takes the vectors of one dimension, which are all of them when they have only one. */
    method RebuildAnn()
      requires resolver.Valid() && Sound(cfg, index.vectors)
      modifies this`ann, resolver
      ensures AnnParts() && Mirrored(OfDim(index.vectors, ann.dim)) && TakenFrom(index.vectors, ann.dim)
      ensures BrandNew(ann) && ann.deletedCount == 0
      ensures index.vectors.Keys <= old(resolver.idToInternal).Keys ==> resolver.idToInternal == old(resolver.idToInternal)
    {
      var list := ListOf(index.vectors);
      ListedAreSound(cfg, list, index.vectors);
      MapOfAll(list, index.vectors);
      ann := BuildAnn(list, resolver, cfg.narrow, annOptions, index.vectors);
    }

    method RebuildWhole(ghost dim: nat)
      requires resolver.Valid() && Sound(cfg, index.vectors) && SameLength(index.vectors, dim)
      modifies this`ann, resolver
      ensures AnnParts() && Mirrored(index.vectors) && BrandNew(ann) && ann.deletedCount == 0
      ensures ann.dim == if index.vectors == map[] then 0 else dim
      ensures index.vectors.Keys <= old(resolver.idToInternal).Keys ==> resolver.idToInternal == old(resolver.idToInternal)
    {
      RebuildAnn();
      UniformIsWhole(index.vectors, ann.dim);
    }

    method RemoveAll(ids: seq<Id>)
      requires store.Valid()
      modifies index, store, store.ids
      ensures store.Valid()
      ensures index.vectors == old(index.vectors) - Elements(ids) && store.vectors == old(store.vectors) - Elements(ids)
    {
      for i := 0 to |ids|
        invariant store.Valid()
        invariant index.vectors == old(index.vectors) - Elements(ids[..i])
        invariant store.vectors == old(store.vectors) - Elements(ids[..i])
      {
        var ignoredStore := store.DeleteVector(ids[i]);
        var ignoredIndex := index.DeleteVector(ids[i]);
        assert Elements(ids[..i + 1]) == Elements(ids[..i]) + {ids[i]};
      }
      assert ids[..|ids|] == ids;
    }

    /** rollbackAddedVectors: takes the ids out everywhere and rebuilds the graph. */
    method Rollback(ids: seq<Id>, ghost m: Vectors, ghost dim: nat)
      requires resolver.Valid() && store.Valid() && Sound(cfg, m) && SameLength(m, dim) && Undoable(m, ids)
      modifies this`ann, index, store, store.ids, resolver
      ensures AnnParts() && store.Valid() && Mirrored(m) && index.vectors == store.vectors == m && BrandNew(ann)
      ensures ann.dim == (if m == map[] then 0 else dim) && ann.deletedCount == 0
    {
      RemoveAll(ids);
      RebuildWhole(dim);
    }

    /** The validation loop of AddVectors, which also fills the exact index. */
    method IndexAll(vectors: seq<Vector>) returns (err: Option<ServiceError>, added: seq<Id>)
      requires index.narrow == cfg.narrow
      modifies index
      ensures index.vectors - Elements(added) == old(index.vectors)
      ensures err == FirstRefusal(cfg, old(index.vectors), vectors)
      ensures err.None? ==> Insertable(cfg, old(index.vectors), vectors)
      ensures err.None? ==> index.vectors == Upserted(old(index.vectors), cfg.narrow, vectors) && Elements(added) == IdsOf(vectors)
    {
      added := [];
      ghost var before := index.vectors;
      for i := 0 to |vectors|
        invariant Insertable(cfg, before, vectors[..i]) && FirstRefusal(cfg, before, vectors[..i]).None?
        invariant index.vectors == Upserted(before, cfg.narrow, vectors[..i]) && Elements(added) == IdsOf(vectors[..i])
        invariant index.vectors - Elements(added) == before
      {
        RefusalStep(cfg, before, vectors, i);
        err := CheckVector(cfg, vectors[i]);
        if err.Some? {
          return;
        }
        var present := index.AddVector(vectors[i]);
        if present {
          return Some(ErrVectorExists), added;
        }
        InsertStep(cfg, before, vectors, i);
        InsertAccepted(cfg, before, vectors, i);
        added := added + [vectors[i].id];
      }
      assert vectors[..|vectors|] == vectors;
      err := None;
    }

    /** The graph mirrors m, and has no dimension yet only if m is empty. */
    ghost predicate GraphHolds(m: Vectors)
      reads this`ann, resolver, ann, ann.pool, ann.pool.visitedMarks
    {
      AnnParts() && Mirrored(m) && (ann.dim == 0 ==> m == map[])
    }

    method AddOneToAnn(vec: Vector, ghost m: Vectors) returns (err: bool)
      requires GraphHolds(m) && |vec.values| > 0
      modifies resolver, ann, ann.pool, ann.pool.visitedMarks
      ensures AnnParts() && AnnAsBefore()
      ensures err ==> GraphHolds(m) && ann.dim == old(ann.dim)
      ensures err <==> old(ann.dim) != 0 && |vec.values| != old(ann.dim)
      ensures !err ==> GraphHolds(m[vec.id := ToFloat32(cfg.narrow, vec.values)]) && ann.dim == |vec.values|
    {
      var annErr := AddMirrored(vec, resolver, ann, m);
      err := annErr.Some?;
    }

    method AddNextToAnn(vectors: seq<Vector>, i: nat, ghost m: Vectors, ghost dim: nat) returns (err: bool)
      requires i < |vectors| && forall j | 0 <= j < |vectors| :: |vectors[j].values| > 0
      requires GraphHolds(Upserted(m, cfg.narrow, vectors[..i])) && DimensionAfter(dim, vectors, i, ann.dim)
      modifies resolver, ann, ann.pool, ann.pool.visitedMarks
      ensures AnnParts() && AnnAsBefore()
      ensures err ==> !OneDimension(dim, vectors)
      ensures !err ==> GraphHolds(Upserted(m, cfg.narrow, vectors[..i + 1])) && DimensionAfter(dim, vectors, i + 1, ann.dim)
    {
      InsertStep(cfg, m, vectors, i);
      err := AddOneToAnn(vectors[i], Upserted(m, cfg.narrow, vectors[..i]));
    }

    /** The graph loop of AddVectors. */
    method AddAllToAnn(vectors: seq<Vector>, ghost m: Vectors) returns (err: bool)
      requires GraphHolds(m) && forall i | 0 <= i < |vectors| :: |vectors[i].values| > 0
      modifies resolver, ann, ann.pool, ann.pool.visitedMarks
      ensures AnnParts() && AnnAsBefore()
      ensures err <==> !OneDimension(old(ann.dim), vectors)
      ensures !err ==> Mirrored(Upserted(m, cfg.narrow, vectors)) && ann.dim == CommonDim(old(ann.dim), vectors)
    {
      ghost var dim := ann.dim;
      for i := 0 to |vectors|
        invariant AnnAsBefore() && GraphHolds(Upserted(m, cfg.narrow, vectors[..i])) && DimensionAfter(dim, vectors, i, ann.dim)
      {
        err := AddNextToAnn(vectors, i, m, dim);
        if err {
          return;
        }
      }
      assert vectors[..|vectors|] == vectors;
      err := false;
    }

    ghost function Durably(): Durable
      reads this, persistence
    {
      Durable(persistence.disk, persistence.pendingOps, persistOps)
    }

    /** A restart would find exactly the visible map. */
    ghost predicate Restorable()
      reads index, persistence
    {
      RestoresTo(cfg, persistence.disk, index.vectors)
    }

    method SaveSnapshot()
      requires persistence.Valid()
      modifies persistence
      ensures persistence.Valid() && persistence.disk == old(persistence.disk).Save(store.vectors) && persistence.pendingOps == old(persistence.pendingOps)
    {
      var list := ListOf(store.vectors);
      persistence.SaveSnapshot(list, store.vectors);
    }

    ghost predicate CanSave(disk: Disk)
      reads store
    {
      Sound(cfg, store.vectors) && Uniform(store.vectors) && RestoresTo(cfg, disk, store.vectors)
    }

    /** Sync, save, truncate: in that order, so that the WAL is never behind the snapshot. */
    method TakeSnapshot(faults: Faults) returns (err: Option<ServiceError>)
      requires persistence.Valid()
      modifies persistence
      ensures persistence.Valid()
      ensures err == if (faults.sync && old(persistence.pendingOps) != 0) || faults.save || faults.truncate then Some(ErrSnapshot) else None
      ensures Durably().(persistOps := 0) == AfterSnapshot(old(Durably()), 0, store.vectors, faults).(persistOps := 0)
      ensures CanSave(old(persistence.disk)) ==> RestoresTo(cfg, persistence.disk, store.vectors)
    {
      ghost var disk := if persistence.pendingOps == 0 then persistence.disk else persistence.disk.Fsync();
      if CanSave(persistence.disk) {
        SaveRestores(cfg, disk, store.vectors);
      }
      if persistence.pendingOps != 0 && faults.sync {
        return Some(ErrSnapshot);
      }
      persistence.Sync();
      if faults.save {
        return Some(ErrSnapshot);
      }
      SaveSnapshot();
      if faults.truncate {
        return Some(ErrSnapshot);
      }
      persistence.TruncateWAL();
      err := None;
    }

    method MaybeSnapshot(faults: Faults) returns (err: Option<ServiceError>)
      requires Valid()
      modifies this`persistOps, persistence
      ensures Valid()
      ensures err == if SnapshotFails(old(Durably()), snapshotEvery, faults) then Some(ErrSnapshot) else None
      ensures Durably() == AfterSnapshot(old(Durably()), snapshotEvery, Map(), faults)
      ensures old(Restorable()) ==> Restorable()
    {
      persistOps := persistOps + 1;
      if persistOps < snapshotEvery {
        return None;
      }
      err := TakeSnapshot(faults);
      if err.None? {
        persistOps := 0;
      }
    }

    method AppendWALBatch(ops: seq<Op>, ghost m: Vectors)
      requires persistence.Valid() && ops != []
      modifies persistence
      ensures persistence.Valid() && Durably() == AppendedTo(old(Durably()), persistence.syncEvery, ops)
      ensures RestoresTo(cfg, old(persistence.disk), m) ==> RestoresTo(cfg, persistence.disk, ApplyAll(cfg, m, ops))
    {
      if RestoresTo(cfg, persistence.disk, m) {
        FlushRestores(cfg, persistence.disk, m, ops);
      }
      persistence.AppendWALBatch(ops);
    }

    /** The durable effect and the error of a call whose operations have reached the WAL: only a due snapshot can fail. */
    ghost predicate Committed(before: Durable, ops: seq<Op>, faults: Faults, err: Option<ServiceError>)
      reads this, index, persistence
    {
      var appended := AppendedTo(before, persistence.syncEvery, ops);
      && Durably() == AfterSnapshot(appended, snapshotEvery, Map(), faults)
      && err == if SnapshotFails(appended, snapshotEvery, faults) then Some(ErrSnapshot) else None
    }

    /** Appends to the WAL, and snapshots when that is due. */
    method Commit(ops: seq<Op>, faults: Faults, ghost m: Vectors) returns (err: Option<ServiceError>)
      requires Valid() && ops != []
      modifies this`persistOps, persistence
      ensures Valid()
      ensures Committed(old(Durably()), ops, faults, err)
      ensures RestoresTo(cfg, old(persistence.disk), m) && ApplyAll(cfg, m, ops) == Map() ==> Restorable()
    {
      AppendWALBatch(ops, m);
      err := MaybeSnapshot(faults);
    }

    /**
      Any failure before or at the WAL append takes the batch out of every structure again; a
      failure of the snapshot that follows is reported too, but the batch stays.
     */
    method AddVectors(vectors: seq<Vector>, faults: Faults) returns (err: Option<ServiceError>)
      requires Valid()
      modifies this, index, store, store.ids, resolver, persistence, ann, ann.pool, ann.pool.visitedMarks
      ensures Valid() && AnnAsBefore()
      ensures BatchRefusal(cfg, old(Map()), old(ann.dim), vectors, faults).Some? ==>
                err == BatchRefusal(cfg, old(Map()), old(ann.dim), vectors, faults) && Map() == old(Map()) && Durably() == old(Durably())
      ensures vectors != [] && BatchRefusal(cfg, old(Map()), old(ann.dim), vectors, faults).Some? ==> fresh(ann) && ann.deletedCount == 0
      ensures BatchRefusal(cfg, old(Map()), old(ann.dim), vectors, faults).None? ==>
                Map() == Upserted(old(Map()), cfg.narrow, vectors) && Committed(old(Durably()), UpsertOps(vectors), faults, err)
      ensures ann.dim == DimAfter(cfg, old(Map()), old(ann.dim), vectors, faults)
      ensures old(Restorable()) ==> Restorable()
    {
      if |vectors| == 0 {
        return Some(ErrInvalidValues);
      }
      ghost var m := Map();
      err := AddToStructures(vectors, faults);
      if err.None? {
        UpsertedIsApplied(cfg, m, vectors);
        err := Commit(UpsertOps(vectors), faults, m);
      }
    }

    /** The batch is in the index and the store, and can be taken out of both again. */
    ghost predicate Undoable(m: Vectors, added: seq<Id>)
      reads index, store
    {
      index.vectors - Elements(added) == m && store.vectors - Elements(added) == m
    }

    /** The steps of AddVectors up to the WAL append. */
    method FillStructures(vectors: seq<Vector>, faults: Faults) returns (err: Option<ServiceError>, added: seq<Id>)
      requires Valid() && vectors != []
      modifies index, store, store.ids, resolver, ann, ann.pool, ann.pool.visitedMarks
      ensures AnnParts() && store.Valid() && AnnAsBefore() && Undoable(old(Map()), added)
      ensures err == BatchRefusal(cfg, old(Map()), old(ann.dim), vectors, faults)
      ensures err.None? ==> Insertable(cfg, old(Map()), vectors)
      ensures err.None? ==> Map() == Upserted(old(Map()), cfg.narrow, vectors) == store.vectors && Mirrored(Map())
      ensures err.None? ==> ann.dim == CommonDim(old(ann.dim), vectors)
    {
      err, added := FillIndexAndStore(vectors, faults);
      if err.Some? {
        return;
      }
      var annErr := FillAnn(vectors, old(Map()));
      err := if annErr then Some(ServiceError.ErrInvalidVectorDim) else if faults.wal then Some(ErrWAL) else None;
    }

    /** Index first: a duplicate id is refused before the store is touched. */
    method FillIndexAndStore(vectors: seq<Vector>, faults: Faults) returns (err: Option<ServiceError>, added: seq<Id>)
      requires store.Valid() && index.vectors == store.vectors && index.narrow == store.narrow == cfg.narrow
      modifies index, store, store.ids
      ensures store.Valid() && Undoable(old(Map()), added)
      ensures err == if FirstRefusal(cfg, old(Map()), vectors).None? && faults.store then Some(ErrStore) else FirstRefusal(cfg, old(Map()), vectors)
      ensures err.None? ==> Insertable(cfg, old(Map()), vectors)
      ensures err.None? ==> Map() == Upserted(old(Map()), cfg.narrow, vectors) == store.vectors
    {
      err, added := IndexAll(vectors);
      assert store.vectors - Elements(added) == store.vectors;
      if err.Some? {
        return;
      }
      if faults.store {
        return Some(ErrStore), added;
      }
      InsertableMeans(cfg, store.vectors, vectors);
      RemovedAgain(store.vectors, cfg.narrow, vectors);
      store.UpsertVectors(vectors);
    }

    method FillAnn(vectors: seq<Vector>, ghost m: Vectors) returns (err: bool)
      requires AnnParts() && Mirrored(m) && Sound(cfg, m) && Insertable(cfg, m, vectors)
      modifies resolver, ann, ann.pool, ann.pool.visitedMarks
      ensures AnnParts() && AnnAsBefore()
      ensures err <==> !OneDimension(old(ann.dim), vectors)
      ensures !err ==> Mirrored(Upserted(m, cfg.narrow, vectors)) && ann.dim == CommonDim(old(ann.dim), vectors)
    {
      if ann.dim == 0 {
        EmptyUnlessDim(cfg, m);
      }
      InsertableMeans(cfg, m, vectors);
      err := AddAllToAnn(vectors, m);
    }

    /** AddVectors up to the WAL append, with its rollback. */
    method AddToStructures(vectors: seq<Vector>, faults: Faults) returns (err: Option<ServiceError>)
      requires Valid() && vectors != []
      modifies this`ann, index, store, store.ids, resolver, ann, ann.pool, ann.pool.visitedMarks
      ensures Valid() && AnnAsBefore()
      ensures err == BatchRefusal(cfg, old(Map()), old(ann.dim), vectors, faults)
      ensures ann.dim == DimAfter(cfg, old(Map()), old(ann.dim), vectors, faults)
      ensures err.Some? ==> Map() == old(Map()) && fresh(ann) && ann.deletedCount == 0
      ensures err.None? ==> Map() == Upserted(old(Map()), cfg.narrow, vectors) && forall i | 0 <= i < |vectors| :: CheckVector(cfg, vectors[i]).None?
    {
      ghost var m, dim := Map(), ann.dim;
      var added;
      err, added := FillStructures(vectors, faults);
      if err.Some? {
        Rollback(added, m, dim);
      } else {
        InsertableMeans(cfg, m, vectors);
        UpsertedIsSound(cfg, m, vectors);
      }
    }

    /** Out of the index, the store, the graph and the resolver. */
    method TakeOut(id: Id)
      requires store.Valid() && AnnParts() && index.vectors == store.vectors && Mirrored(index.vectors) && id in index.vectors
      modifies index, store, store.ids, resolver, ann
      ensures store.Valid() && AnnParts() && AnnAsBefore()
      ensures index.vectors == store.vectors == old(Map()) - {id} && Mirrored(index.vectors)
      ensures resolver.idToInternal == old(resolver.idToInternal) - {id}
    {
      var ignoredIndex := index.DeleteVector(id);
      var ignoredStore := store.DeleteVector(id);
      ForgetAnn(id, old(Map()));
    }

    method ForgetAnn(id: Id, ghost m: Vectors)
      requires AnnParts() && Mirrored(m) && id in m
      modifies resolver, ann
      ensures AnnParts() && AnnAsBefore() && Mirrored(m - {id}) && resolver.idToInternal == old(resolver.idToInternal) - {id}
    {
      MirrorRemoved(m, resolver.idToInternal, resolver.internalToID, resolver.nextInternal, ann.Live(), id);
      ghost var a := resolver.idToInternal;
      var internalID := resolver.Assign(id);
      assert resolver.idToInternal == a && internalID == a[id];
      ann.DeleteVector(internalID);
      resolver.Remove(id);
    }

    /** After a failed WAL append: back into the store and the index, under a new internal id. */
    method PutBack(vec: Vector, ghost m: Vectors, ghost dim: nat)
      requires index.narrow == store.narrow == cfg.narrow && store.Valid() && resolver.Valid() && Sound(cfg, m) && SameLength(m, dim)
      requires vec.id in m && vec.values == m[vec.id] && index.vectors == store.vectors == m - {vec.id}
      modifies this`ann, index, store, store.ids, resolver
      ensures AnnParts() && store.Valid() && Mirrored(m) && index.vectors == store.vectors == m && BrandNew(ann)
    {
      store.UpsertOne(vec);
      var ignoredIndex := index.AddVector(vec);
      var ignoredID := resolver.Assign(vec.id);
      assert index.vectors == m && store.vectors == m;
      RebuildWhole(dim);
    }

    /** After a failed delete in the store: back into the index. */
    method OutOfIndexAndBack(vec: Vector)
      requires index.narrow == cfg.narrow && Sound(cfg, index.vectors) && vec.id in index.vectors && vec.values == index.vectors[vec.id]
      modifies index
      ensures index.vectors == old(index.vectors)
    {
      var found := index.DeleteVector(vec.id);
      var present := index.AddVector(vec);
    }

    /** Out of every structure, or back in where a step fails. */
    method TakeOutOrPutBack(vec: Vector, faults: Faults) returns (err: Option<ServiceError>)
      requires index.narrow == store.narrow == cfg.narrow && store.Valid() && AnnParts() && Sound(cfg, index.vectors)
      requires index.vectors == store.vectors && Mirrored(index.vectors) && vec.id in Map() && vec.values == Map()[vec.id]
      modifies this`ann, index, store, store.ids, resolver, ann, ann.pool, ann.pool.visitedMarks
      ensures store.Valid() && AnnParts() && AnnAsBefore() && Mirrored(index.vectors)
      ensures err == DeleteFault(faults)
      ensures index.vectors == store.vectors == if err.None? then old(Map()) - {vec.id} else old(Map())
      ensures err.None? ==> resolver.idToInternal == old(resolver.idToInternal) - {vec.id}
    {
      ghost var m, dim := Map(), ann.dim;
      if faults.store {
        OutOfIndexAndBack(vec);
        return Some(ErrStore);
      }
      TakeOut(vec.id);
      if faults.wal {
        PutBack(vec, m, dim);
        return Some(ErrWAL);
      }
      err := None;
    }

    /** DeleteVector up to the WAL append, with its way back. */
    method DeleteFromStructures(vec: Vector, faults: Faults) returns (err: Option<ServiceError>)
      requires Agree() && vec.id in Map() && vec.values == Map()[vec.id]
      modifies this`ann, index, store, store.ids, resolver, ann, ann.pool, ann.pool.visitedMarks
      ensures Agree() && AnnAsBefore()
      ensures err == DeleteFault(faults)
      ensures Map() == if err.None? then old(Map()) - {vec.id} else old(Map())
      ensures err.None? ==> resolver.idToInternal == old(resolver.idToInternal) - {vec.id}
    {
      ghost var m := Map();
      err := TakeOutOrPutBack(vec, faults);
      RemovedIsSound(cfg, m, vec.id);
    }

    /** Few tombstones, or few for the size of the graph. */
    ghost predicate Compact()
      reads this, ann
    {
      ann.deletedCount < 1024 || 4 * ann.deletedCount < |ann.nodes|
    }

    method MaybeCompactANNAfterDelete()
      requires Valid()
      modifies this`ann, resolver
      ensures Valid() && Map() == old(Map()) && AnnAsBefore() && Compact()
      ensures (old(Compact()) ==> ann == old(ann) && unchanged(resolver)) && resolver.idToInternal == old(resolver.idToInternal)
    {
      if ann.deletedCount < ANN_DELETE_REBUILD_MIN_DELETED {
        return;
      }
      if |ann.nodes| == 0 || 4 * ann.deletedCount < |ann.nodes| {
        return;
      }
      RebuildWhole(ann.dim);
    }

    method CommitDelete(id: Id, faults: Faults, ghost m: Vectors) returns (err: Option<ServiceError>)
      requires Valid()
      modifies this, persistence, resolver
      ensures Valid() && Map() == old(Map()) && AnnAsBefore() && Compact() && resolver.idToInternal == old(resolver.idToInternal)
      ensures Committed(old(Durably()), [Delete(id)], faults, err)
      ensures RestoresTo(cfg, old(persistence.disk), m) && m - {id} == Map() && id != "" ==> Restorable()
    {
      DeleteIsApplied(cfg, m, id);
      AppendWALBatch([Delete(id)], m);
      MaybeCompactANNAfterDelete();
      err := MaybeSnapshot(faults);
    }

    method DeleteStored(vec: Vector, faults: Faults) returns (err: Option<ServiceError>)
      requires Valid() && vec.id != "" && vec.id in Map() && vec.values == Map()[vec.id]
      modifies this, index, store, store.ids, resolver, persistence, ann, ann.pool, ann.pool.visitedMarks
      ensures Valid() && AnnAsBefore()
      ensures DeleteFault(faults).Some? ==> err == DeleteFault(faults) && Map() == old(Map()) && Durably() == old(Durably())
      ensures DeleteFault(faults).None? ==> Map() == old(Map()) - {vec.id} && Compact() && Committed(old(Durably()), [Delete(vec.id)], faults, err)
      ensures DeleteFault(faults).None? ==> resolver.idToInternal == old(resolver.idToInternal) - {vec.id}
      ensures old(Restorable()) ==> Restorable()
    {
      ghost var m := Map();
      err := DeleteFromStructures(vec, faults);
      if err.None? {
        err := CommitDelete(vec.id, faults, m);
      }
    }

    /**
      A failure up to the WAL append leaves every structure as it was; afterwards the graph
      never holds more than the tolerated share of tombstones.
     */
    method DeleteVector(id: Id, faults: Faults) returns (err: Option<ServiceError>)
      requires Valid()
      modifies this, index, store, store.ids, resolver, persistence, ann, ann.pool, ann.pool.visitedMarks
      ensures Valid() && AnnAsBefore()
      ensures DeleteRefusal(old(Map()), id, faults).Some? ==>
                err == DeleteRefusal(old(Map()), id, faults) && Map() == old(Map()) && Durably() == old(Durably())
      ensures DeleteRefusal(old(Map()), id, faults).None? ==>
                Map() == old(Map()) - {id} && Compact() && Committed(old(Durably()), [Delete(id)], faults, err)
      ensures DeleteRefusal(old(Map()), id, faults).None? ==> resolver.idToInternal == old(resolver.idToInternal) - {id}
      ensures old(Restorable()) ==> Restorable()
    {
      if IsBlank(id) {
        return Some(ErrInvalidID);
      }
      var vec := store.GetVector(id);
      if vec.None? {
        return Some(ErrVectorNotFound);
      }
      err := DeleteStored(vec.value, faults);
    }

    /** One entry of the snapshot into every structure; the graph may refuse its dimension. */
    method LoadOne(vec: Vector, ghost m: Vectors) returns (err: bool)
      requires index.narrow == store.narrow == cfg.narrow && store.Valid() && index.vectors == store.vectors == m && vec.id !in m
      requires GraphHolds(m) && |vec.values| > 0
      modifies index, store, store.ids, resolver, ann, ann.pool, ann.pool.visitedMarks
      ensures store.Valid() && index.vectors == store.vectors == m[vec.id := ToFloat32(cfg.narrow, vec.values)]
      ensures AnnParts() && AnnAsBefore()
      ensures err <==> old(ann.dim) != 0 && |vec.values| != old(ann.dim)
      ensures if err then GraphHolds(m) && ann.dim == old(ann.dim) else GraphHolds(index.vectors) && ann.dim == |vec.values|
    {
      store.UpsertOne(vec);
      var ignoredIndex := index.AddVector(vec);
      err := AddOneToAnn(vec, m);
    }

    /** Some of m, and all of that but one in the graph, which has refused its dimension. */
    ghost predicate PartlyLoaded(m: Vectors)
      reads this`ann, index, resolver, ann, ann.pool, ann.pool.visitedMarks
    {
      && IsPart(index.vectors, m)
      && ann.dim != 0 && exists id :: id in index.vectors && |index.vectors[id]| != ann.dim && Mirrored(index.vectors - {id})
    }

    /** The graph holds m, and has its dimension. */
    ghost predicate Taken(m: Vectors)
      reads this`ann, resolver, ann, ann.pool, ann.pool.visitedMarks
    {
      GraphHolds(m) && TakenFrom(m, ann.dim)
    }

    /** The next entry of the snapshot, unless restore skips it. */
    method LoadNext(payload: Vectors, list: seq<Vector>, i: nat) returns (err: bool)
      requires index.narrow == store.narrow == cfg.narrow && store.Valid() && index.vectors == store.vectors
      requires ListsAll(list, payload) && i < |list|
      requires Taken(index.vectors) && index.vectors == LoadedPart(cfg, payload, ListedIds(list[..i]))
      modifies index, store, store.ids, resolver, ann, ann.pool, ann.pool.visitedMarks
      ensures store.Valid() && AnnParts() && AnnAsBefore()
      ensures index.vectors == store.vectors == LoadedPart(cfg, payload, ListedIds(list[..i + 1]))
      ensures if err then PartlyLoaded(index.vectors) && !Uniform(index.vectors) else Taken(index.vectors)
    {
      ghost var m := index.vectors;
      LoadedOneMore(cfg, payload, list, i);
      if list[i].id == "" || |list[i].values| == 0 || |list[i].values| > cfg.maxVectorDim {
        return false;
      }
      err := LoadOrStop(list[i], m);
    }

    method LoadOrStop(vec: Vector, ghost m: Vectors) returns (err: bool)
      requires index.narrow == store.narrow == cfg.narrow && store.Valid() && index.vectors == store.vectors == m && vec.id !in m
      requires Taken(m) && |vec.values| > 0
      modifies index, store, store.ids, resolver, ann, ann.pool, ann.pool.visitedMarks
      ensures store.Valid() && AnnParts() && AnnAsBefore()
      ensures index.vectors == store.vectors == m[vec.id := ToFloat32(cfg.narrow, vec.values)]
      ensures if err then PartlyLoaded(index.vectors) && !Uniform(index.vectors) else Taken(index.vectors)
    {
      err := LoadOne(vec, m);
      if err {
        RefusedIsPartial(m, vec.id, ToFloat32(cfg.narrow, vec.values));
      } else {
        OneMoreDimension(m, vec.id, ToFloat32(cfg.narrow, vec.values), ann.dim);
      }
    }

    lemma RefusedIsPartial(m: Vectors, id: Id, v: Vec)
      requires Taken(m) && ann.dim != 0 && |v| != ann.dim && id !in m && index.vectors == m[id := v]
      ensures PartlyLoaded(index.vectors) && !Uniform(index.vectors)
    {
      OneMoreDimension(m, id, v, ann.dim);
    }

    /** loadSnapshot stops at the first entry, in the order of the map, whose dimension is not that of the entries before it. */
    method LoadSnapshot() returns (err: bool)
      requires Valid() && Map() == map[] && ann.dim == 0
      modifies index, store, store.ids, resolver, ann, ann.pool, ann.pool.visitedMarks
      ensures store.Valid() && AnnParts() && AnnAsBefore() && index.vectors == store.vectors
      ensures err <==> !Uniform(Loaded(cfg, persistence.disk.snapshot))
      ensures if err then PartlyLoaded(Loaded(cfg, persistence.disk.snapshot))
              else Mirrored(index.vectors) && index.vectors == Loaded(cfg, persistence.disk.snapshot)
    {
      if persistence.disk.snapshot.None? {
        assert SameLength(map[], 0);
        return false;
      }
      err := LoadAll(persistence.disk.snapshot.value);
    }

    method LoadAll(payload: Vectors) returns (err: bool)
      requires Valid() && Map() == map[] && ann.dim == 0
      modifies index, store, store.ids, resolver, ann, ann.pool, ann.pool.visitedMarks
      ensures store.Valid() && AnnParts() && AnnAsBefore() && index.vectors == store.vectors
      ensures err <==> !Uniform(Loaded(cfg, Some(payload)))
      ensures if err then PartlyLoaded(Loaded(cfg, Some(payload))) else Mirrored(index.vectors) && index.vectors == Loaded(cfg, Some(payload))
    {
      var list := ListOf(payload);
      LoadedWhole(cfg, payload, list);
      for i := 0 to |list|
        invariant store.Valid() && AnnAsBefore() && Taken(index.vectors)
        invariant index.vectors == store.vectors == LoadedPart(cfg, payload, ListedIds(list[..i]))
      {
        err := LoadNext(payload, list, i);
        if err {
          PartIsMixed(cfg, payload, ListedIds(list[..i + 1]));
          return;
        }
      }
      assert list[..|list|] == list;
      err := false;
    }

    /** The callback of replayWAL. */
    method ReplayOne(op: Op)
      requires index.narrow == store.narrow == cfg.narrow && store.Valid() && index.vectors == store.vectors
      modifies index, store, store.ids
      ensures store.Valid() && index.vectors == store.vectors == Apply(cfg, old(index.vectors), op)
    {
      match op
      case Upsert(id, values) =>
        if id == "" || |values| == 0 || |values| > cfg.maxVectorDim {
          return;
        }
        var vec := Vector(id, values);
        store.UpsertOne(vec);
        var present := index.AddVector(vec);
        if present {
          store.UpsertOne(vec);
          var ignoredDelete := index.DeleteVector(id);
          var ignoredAdd := index.AddVector(vec);
        }
      case Delete(id) =>
        if id == "" {
          return;
        }
        var ignoredStore := store.DeleteVector(id);
        var ignoredIndex := index.DeleteVector(id);
      case Unknown(_) =>
    }

    /** Replays the log, or as much of it as precedes a line that stops it; then the graph is not rebuilt. */
    method ReplayWAL(stop: Option<nat>, ghost m: Vectors) returns (err: bool)
      requires index.narrow == store.narrow == cfg.narrow && store.Valid() && AnnParts() && index.vectors == store.vectors == m
      requires Sound(cfg, m) && Mirrored(m) && (stop.Some? ==> stop.value <= |persistence.disk.wal|)
      modifies this`ann, index, store, store.ids, resolver
      ensures store.Valid() && AnnParts() && AnnAsBefore() && err == stop.Some?
      ensures index.vectors == store.vectors == ApplyAll(cfg, m, ReadBefore(persistence.disk.wal, stop)) && Sound(cfg, index.vectors)
      ensures if err then Mirrored(m) else Mirrored(OfDim(index.vectors, ann.dim)) && TakenFrom(index.vectors, ann.dim)
    {
      var ops := ReadBefore(persistence.disk.wal, stop);
      ReplayAll(ops, m);
      AppliedIsSound(cfg, m, ops);
      if stop.Some? {
        return true;
      }
      RebuildAnn();
      err := false;
    }

    method ReplayAll(ops: seq<Op>, ghost m: Vectors)
      requires index.narrow == store.narrow == cfg.narrow && store.Valid() && index.vectors == store.vectors == m
      modifies index, store, store.ids
      ensures store.Valid() && index.vectors == store.vectors == ApplyAll(cfg, m, ops)
    {
      for i := 0 to |ops|
        invariant store.Valid() && index.vectors == store.vectors == ApplyAll(cfg, m, ops[..i])
      {
        assert ops[..i + 1][..i] == ops[..i];
        ReplayOne(ops[i]);
      }
      assert ops[..|ops|] == ops;
    }

    /** The disk part of restoreState: note that the WAL is not synced before the snapshot is saved. */
    method Resave(faults: Faults) returns (err: Option<ServiceError>)
      requires persistence.Valid() && Sound(cfg, store.vectors) && Recover(cfg, persistence.disk) == store.vectors && !faults.load
      modifies this`persistOps, persistence
      ensures persistence.Valid() && Recover(cfg, persistence.disk) == store.vectors
      ensures !faults.save ==> (RestoresTo(cfg, persistence.disk, store.vectors) <==> Uniform(store.vectors))
      ensures err.None? <==> !faults.save && !faults.truncate
      ensures Durably() == AfterRestore(old(Durably()), store.vectors, faults)
    {
      if faults.save {
        return Some(ErrSnapshot);
      }
      SaveRecovers(cfg, persistence.disk, store.vectors);
      SaveSnapshot();
      if faults.truncate {
        return Some(ErrSnapshot);
      }
      persistence.TruncateWAL();
      persistOps := 0;
      err := None;
    }

    /** What the structures hold after the files have been read, all or in part. */
    ghost predicate Reloaded(disk: Disk, stop: Option<nat>)
      reads this`ann, index, store, store.ids, resolver, ann, ann.pool, ann.pool.visitedMarks
    {
      && Structures() && index.vectors == store.vectors
      && if Uniform(Loaded(cfg, disk.snapshot)) then Replayed(Loaded(cfg, disk.snapshot), disk.wal, stop) else PartlyLoaded(Loaded(cfg, disk.snapshot))
    }

    /** The operations that were read are in the index and the store; a graph rebuilt after all of them takes what is of its dimension. */
    ghost predicate Replayed(m: Vectors, wal: seq<Op>, stop: Option<nat>)
      reads this`ann, index, resolver, ann, ann.pool, ann.pool.visitedMarks
    {
      && Map() == ApplyAll(cfg, m, ReadBefore(wal, stop)) && Sound(cfg, Map())
      && if stop.Some? then Mirrored(m) else Mirrored(OfDim(Map(), ann.dim)) && TakenFrom(Map(), ann.dim)
    }

    method Reload(stop: Option<nat>) returns (err: bool)
      requires Valid() && Map() == map[] && ann.dim == 0 && (stop.Some? ==> stop.value <= |persistence.disk.wal|)
      modifies this`ann, index, store, store.ids, resolver, ann, ann.pool, ann.pool.visitedMarks
      ensures Reloaded(persistence.disk, stop) && AnnAsBefore()
      ensures err <==> !Uniform(Loaded(cfg, persistence.disk.snapshot)) || stop.Some?
    {
      err := LoadSnapshot();
      if err {
        return;
      }
      LoadedIsSound(cfg, persistence.disk.snapshot);
      err := ReplayWAL(stop, index.vectors);
    }

    /** The structures agree exactly if the graph mirrors the visible map. */
    lemma AgreeIff(g: Vectors)
      requires Serving(g)
      ensures Agree() <==> Map() == g
    {
      if Agree() {
        MirrorsOne(Map(), g, resolver.idToInternal, resolver.internalToID, resolver.nextInternal, ann.Live());
      }
    }

    /**
      After a stopped replay the structures agree only if the operations it read change nothing;
      after a whole one, only if the recovered vectors have one dimension; and never after a
      snapshot of several dimensions.
     */
    lemma ReloadedAgrees(disk: Disk, stop: Option<nat>)
      requires Reloaded(disk, stop)
      ensures Uniform(Loaded(cfg, disk.snapshot)) ==> Serving(if stop.Some? then Loaded(cfg, disk.snapshot) else OfDim(Map(), ann.dim))
      ensures Agree() <==> Uniform(Loaded(cfg, disk.snapshot)) && if stop.Some? then Map() == Loaded(cfg, disk.snapshot) else Uniform(Map())
    {
      if !Uniform(Loaded(cfg, disk.snapshot)) {
        var id :| id in index.vectors && |index.vectors[id]| != ann.dim;
        assert !SameLength(index.vectors, ann.dim);
      } else if stop.Some? {
        AgreeIff(Loaded(cfg, disk.snapshot));
      } else {
        AgreeIff(OfDim(Map(), ann.dim));
        UniformIsWhole(Map(), ann.dim);
      }
    }

    /**
      restoreState of a new service, whose error nobody reads. When the snapshot cannot be read
      the service serves nothing; when its vectors have several dimensions, some of them; when the
      replay stops, the snapshot and the operations before that line, over a graph of the
      snapshot. Otherwise it serves what the disk says, and the graph lacks what is not of its
      dimension. Only then is the disk touched, and goes on saying the same whichever step fails.
     */
    method RestoreState(faults: Faults, stop: Option<nat>) returns (err: Option<ServiceError>)
      requires Valid() && Map() == map[] && ann.dim == 0 && (stop.Some? ==> stop.value <= |persistence.disk.wal|)
      modifies this, index, store, store.ids, resolver, persistence, ann, ann.pool, ann.pool.visitedMarks
      ensures persistence.Valid() && AnnAsBefore()
      ensures if faults.load then Agree() && Map() == map[] else Reloaded(old(persistence.disk), stop)
      ensures err.None? <==> ReadsAll(cfg, old(persistence.disk), faults, stop) && !faults.save && !faults.truncate
      ensures if ReadsAll(cfg, old(persistence.disk), faults, stop)
              then Durably() == AfterRestore(old(Durably()), Map(), faults) && Recover(cfg, persistence.disk) == Map()
              else Durably() == old(Durably())
      ensures ReadsAll(cfg, old(persistence.disk), faults, stop) && !faults.save ==> (Restorable() <==> Uniform(Map()))
    {
      if faults.load {
        return Some(ErrSnapshot);
      }
      var stopped := Reload(stop);
      if stopped {
        return Some(ErrSnapshot);
      }
      err := Resave(faults);
    }

    /** `hits` names, closest first, the k closest live nodes among those that the traced graph search found. */
    ghost predicate FromGraph(query: Vec, k: nat, t: GraphTrace, hits: seq<Hit>)
      reads this`ann, resolver, ann
    {
      && PickedFrom(ann.nodes, ann.deleted, ann.entrypoint, ann.efSearch, query, k, t.found, t.seen, t.picks)
      && (forall p | p in t.picks :: p.id < |ann.nodes|)
      && Named(resolver.internalToID, External(ann.nodes, t.picks), hits)
    }

    /** searchANN: nothing when the graph search fails or finds no live node. The graph may mirror another map than the visible one. */
    method SearchANN(values: Vec, k: nat, ghost g: Vectors) returns (squared: seq<Hit>, ghost t: GraphTrace)
      requires AnnParts() && Mirrored(g) && k > 0
      modifies ann, ann.pool, ann.pool.visitedMarks
      ensures AnnParts() && Mirrored(g) && AnnAsBefore() && ann.dim == old(ann.dim)
      ensures StoredAnswer(g, ToFloat32(cfg.narrow, values), k, squared)
      ensures if |values| > 0 && |values| == ann.dim then FromGraph(ToFloat32(cfg.narrow, values), k, t, squared) else squared == []
    {
      var err, results; ghost var found, seen, picks;
      err, results, found, seen, picks := ann.SearchWithDistances(values, k);
      t := GraphTrace(found, seen, picks);
      if err.Some? {
        return [], t;
      }
      squared := NameLive(results, ann.Live(), values, k, g);
    }

    method NameLive(results: seq<Found>, ghost live: map<int, Vec>, ghost values: Vec, ghost k: nat, ghost g: Vectors) returns (squared: seq<Hit>)
      requires resolver.Valid() && Mirrors(g, resolver.idToInternal, resolver.internalToID, live)
      requires TrueAnswer(live, ToFloat32(cfg.narrow, values), k, results)
      ensures StoredAnswer(g, ToFloat32(cfg.narrow, values), k, squared) && Named(resolver.internalToID, results, squared)
    {
      forall i | 0 <= i < |results|
        ensures results[i].id in resolver.internalToID
      {
        assert IsTrue(live, ToFloat32(cfg.narrow, values), results[i]);
        var internalID: int := results[i].id;
        assert internalID in live;
      }
      squared := NameResults(resolver, results, live);
      NamedIsStored(g, resolver.idToInternal, resolver.internalToID, live, ToFloat32(cfg.narrow, values), k, results, squared);
    }

    method SearchExact(query: Vec, k: nat, order: seq<Id>, sqrt: real -> real) returns (results: seq<Hit>, ghost squared: seq<Hit>)
      requires Scorable(Map(), query) && Enumerates(order, Map().Keys) && k > 0
      ensures results == WithRoots(sqrt, squared)
      ensures Exactly(query, k, squared) && StoredAnswer(Map(), query, k, squared) && (Map() != map[] ==> results != [])
    {
      results, squared := ExactSearch.SearchExact(index.vectors, order, query, k, sqrt);
      ExactIsStored(index.vectors, query, k, squared);
    }

    /** The closest of the visible vectors, or of their prefixes when the query is shorter. */
    ghost predicate Exactly(query: Vec, k: nat, hits: seq<Hit>)
      requires Scorable(Map(), query)
      reads index
    {
      PrefixAnswer(Map(), query, k, hits) && (SearchableBy(Map(), query) ==> ExactAnswer(Map(), query, k, hits))
    }

    /** The graph's hits, or the exact answer when it has none. */
    method SearchGraphFirst(values: Vec, k: nat, order: seq<Id>, sqrt: real -> real, ghost g: Vectors)
      returns (results: seq<Hit>, ghost squared: seq<Hit>, ghost t: GraphTrace, ghost graph: seq<Hit>)
      requires AnnParts() && Mirrored(g) && Scorable(Map(), ToFloat32(cfg.narrow, values))
      requires Enumerates(order, Map().Keys) && k > 0
      modifies ann, ann.pool, ann.pool.visitedMarks
      ensures AnnParts() && Mirrored(g) && AnnAsBefore() && ann.dim == old(ann.dim)
      ensures results == WithRoots(sqrt, squared) && (Map() != map[] ==> results != [])
      ensures StoredAnswer(if graph == [] then Map() else g, ToFloat32(cfg.narrow, values), k, squared)
      ensures if |values| > 0 && |values| == ann.dim then FromGraph(ToFloat32(cfg.narrow, values), k, t, graph) else graph == []
      ensures if graph == [] then Exactly(ToFloat32(cfg.narrow, values), k, squared) else squared == graph
    {
      var hits;
      hits, t := SearchANN(values, k, g);
      graph := hits;
      if hits != [] {
        results, squared := WithRoots(sqrt, hits), hits;
      } else {
        results, squared := SearchExact(ToFloat32(cfg.narrow, values), k, order, sqrt);
      }
    }

    /**
      Whichever path answers, the answer is a sorted list of distinct ids with the true distances
      of their vectors: in the visible map, or, when the graph answers, in the map that the graph
      mirrors, which is the visible one whenever the structures agree. It is empty only if
      nothing is stored, and exact unless the graph answers.
     */
    ghost predicate Returned(query: Vec, k: nat, sqrt: real -> real, g: Vectors, results: seq<Hit>, squared: seq<Hit>, t: GraphTrace, graph: seq<Hit>)
      requires Scorable(Map(), query)
      reads this`ann, index, resolver, ann
    {
      && results == WithRoots(sqrt, squared) && Sorted(Closer, results) && (Map() != map[] ==> results != [])
      && StoredAnswer(if graph == [] then Map() else g, query, k, squared)
      && (if annMode && |query| == ann.dim then FromGraph(query, k, t, graph) else graph == [])
      && if graph == [] then Exactly(query, k, squared) else squared == graph
    }

    method Search(values: Vec, k: int, order: seq<Id>, sqrt: real -> real, ghost g: Vectors)
      returns (err: Option<ServiceError>, results: seq<Hit>, ghost squared: seq<Hit>, ghost t: GraphTrace, ghost graph: seq<Hit>)
      requires Serving(g) && Scorable(Map(), ToFloat32(cfg.narrow, values)) && Enumerates(order, Map().Keys) && Monotone(sqrt)
      modifies ann, ann.pool, ann.pool.visitedMarks
      ensures Serving(g) && Map() == old(Map()) && AnnAsBefore()
      ensures err == ValidateSearch(cfg, maxK, values, k)
      ensures err.None? ==> Returned(ToFloat32(cfg.narrow, values), k, sqrt, g, results, squared, t, graph)
    {
      results, squared, t, graph := [], [], GraphTrace([], [], []), [];
      err := ValidateSearch(cfg, maxK, values, k);
      if err.None? {
        results, squared, t, graph := Dispatch(values, k, order, sqrt, g);
        ServingKept(g);
      }
    }

    /** Only the graph's workspace is used up by a search. */
    twostate lemma ServingKept(g: Vectors)
      requires old(Serving(g)) && unchanged(this, index, store, store.ids) && AnnParts() && Mirrored(g)
      ensures Serving(g)
    {
    }

    method Dispatch(values: Vec, k: nat, order: seq<Id>, sqrt: real -> real, ghost g: Vectors)
      returns (results: seq<Hit>, ghost squared: seq<Hit>, ghost t: GraphTrace, ghost graph: seq<Hit>)
      requires AnnParts() && Mirrored(g) && Scorable(Map(), ToFloat32(cfg.narrow, values)) && Enumerates(order, Map().Keys) && Monotone(sqrt)
      requires |values| > 0 && k > 0
      modifies ann, ann.pool, ann.pool.visitedMarks
      ensures AnnParts() && Mirrored(g) && AnnAsBefore() && ann.dim == old(ann.dim)
      ensures Returned(ToFloat32(cfg.narrow, values), k, sqrt, g, results, squared, t, graph)
    {
      t, graph := GraphTrace([], [], []), [];
      if annMode {
        results, squared, t, graph := SearchGraphFirst(values, k, order, sqrt, g);
      } else {
        results, squared := SearchExact(ToFloat32(cfg.narrow, values), k, order, sqrt);
      }
      RootsStaySorted(sqrt, if graph == [] then index.vectors else g, ToFloat32(cfg.narrow, values), k, squared);
    }
  }

  lemma InsertStep(cfg: Config, m: Vectors, vectors: seq<Vector>, i: nat)
    requires i < |vectors|
    ensures Upserted(m, cfg.narrow, vectors[..i + 1]) == Upserted(m, cfg.narrow, vectors[..i])[vectors[i].id := ToFloat32(cfg.narrow, vectors[i].values)]
    ensures IdsOf(vectors[..i + 1]) == IdsOf(vectors[..i]) + {vectors[i].id}
  {
    assert vectors[..i + 1][..i] == vectors[..i];
    assert vectors[..i + 1] == vectors[..i] + [vectors[i]];
  }

  /** What the loop finds at position i is the refusal of the batch, if it is one. */
  lemma RefusalStep(cfg: Config, m: Vectors, vectors: seq<Vector>, i: nat)
    requires i < |vectors| && FirstRefusal(cfg, m, vectors[..i]).None?
    ensures var check := CheckVector(cfg, vectors[i]); var taken := vectors[i].id in Upserted(m, cfg.narrow, vectors[..i]);
      && (check.Some? ==> FirstRefusal(cfg, m, vectors) == check)
      && (check.None? && taken ==> FirstRefusal(cfg, m, vectors) == Some(ErrVectorExists))
      && (check.None? && !taken ==> FirstRefusal(cfg, m, vectors[..i + 1]).None?)
  {
    UpsertedKeys(m, cfg.narrow, vectors[..i]);
    assert vectors[..i + 1][..i] == vectors[..i];
    if FirstRefusal(cfg, m, vectors[..i + 1]).Some? {
      RefusalStays(cfg, m, vectors, i + 1);
    }
  }

  lemma InsertableWith(cfg: Config, m: Vectors, done: seq<Vector>, last: Vector)
    requires Insertable(cfg, m, done) && CheckVector(cfg, last).None? && last.id !in m && last.id !in IdsOf(done)
    ensures Insertable(cfg, m, done + [last])
  {
    var longer := done + [last];
    forall i: nat
      ensures IsNew(cfg, m, longer, i)
    {
      assert IsNew(cfg, m, done, i);
    }
    forall i: nat, j: nat
      ensures IsDistinct(longer, i, j)
    {
      assert IsDistinct(done, i, j);
      assert i < |done| ==> done[i] in done;
    }
  }

  lemma InsertAccepted(cfg: Config, m: Vectors, vectors: seq<Vector>, i: nat)
    requires i < |vectors| && Insertable(cfg, m, vectors[..i])
    requires CheckVector(cfg, vectors[i]).None? && vectors[i].id !in Upserted(m, cfg.narrow, vectors[..i])
    ensures Insertable(cfg, m, vectors[..i + 1])
    ensures Upserted(m, cfg.narrow, vectors[..i + 1]) - IdsOf(vectors[..i + 1]) == m
  {
    UpsertedKeys(m, cfg.narrow, vectors[..i]);
    InsertableWith(cfg, m, vectors[..i], vectors[i]);
    assert vectors[..i + 1] == vectors[..i] + [vectors[i]];
    InsertableMeans(cfg, m, vectors[..i + 1]);
    RemovedAgain(m, cfg.narrow, vectors[..i + 1]);
  }

  /** A vector that the graph has taken keeps its dimension the only one; one that it has refused brings in a second. */
  lemma OneMoreDimension(m: Vectors, id: Id, v: Vec, dim: nat)
    requires id !in m
    ensures |v| == dim ==> TakenFrom(m[id := v], dim)
    ensures TakenFrom(m, dim) && dim != 0 && |v| != dim ==> !Uniform(m[id := v])
    ensures m[id := v] - {id} == m
  {
    if |v| == dim {
      assert id in m[id := v] && |m[id := v][id]| == dim;
    }
    if TakenFrom(m, dim) && dim != 0 && |v| != dim {
      var other :| other in m && |m[other]| == dim;
      assert m[id := v][other] == m[other] && m[id := v][id] == v;
    }
  }

  ghost predicate IsPart(part: Vectors, m: Vectors) {
    forall id | id in part :: id in m && part[id] == m[id]
  }

  lemma PartOfUniform(part: Vectors, m: Vectors)
    requires IsPart(part, m) && Uniform(m)
    ensures Uniform(part)
  {
    var dim: nat :| SameLength(m, dim);
    forall id | id in part
      ensures |part[id]| == dim
    {
      assert part[id] == m[id];
    }
    assert SameLength(part, dim);
  }

  lemma PartIsMixed(cfg: Config, m: Vectors, ids: set<Id>)
    requires !Uniform(LoadedPart(cfg, m, ids))
    ensures !Uniform(Loaded(cfg, Some(m))) && IsPart(LoadedPart(cfg, m, ids), Loaded(cfg, Some(m)))
  {
    var part, all := LoadedPart(cfg, m, ids), Loaded(cfg, Some(m));
    assert IsPart(part, all);
    if Uniform(all) {
      PartOfUniform(part, all);
    }
  }

  lemma MapOfOneMore(list: seq<Vector>, i: nat)
    requires i < |list|
    ensures MapOf(list[..i + 1]) == MapOf(list[..i])[list[i].id := list[i].values]
  {
    assert list[..i + 1][..i] == list[..i];
  }

  lemma ListedAreSound(cfg: Config, list: seq<Vector>, m: Vectors)
    requires ListsAll(list, m) && Sound(cfg, m)
    ensures forall i | 0 <= i < |list| :: |list[i].values| > 0 && ToFloat32(cfg.narrow, list[i].values) == list[i].values
  {
    forall i | 0 <= i < |list|
      ensures |list[i].values| > 0 && ToFloat32(cfg.narrow, list[i].values) == list[i].values
    {
      assert list[i] in list;
    }
  }

  /** The dimension that a graph built over a list takes on. */
  function FirstDim(list: seq<Vector>): nat {
    if list == [] then 0 else |list[0].values|
  }

  lemma FirstDimIsTaken(list: seq<Vector>, m: Vectors)
    requires ListsAll(list, m)
    ensures TakenFrom(m, FirstDim(list))
  {
    if list != [] {
      assert list[0] in list;
    } else {
      assert m.Keys == {};
    }
  }

  /** The map listed so far gains an entry that is new in it. */
  lemma ListedNext(list: seq<Vector>, m: Vectors, i: nat, dim: nat)
    requires ListsAll(list, m) && i < |list|
    ensures OfDim(MapOf(list[..i + 1]), dim) ==
      if |list[i].values| == dim then OfDim(MapOf(list[..i]), dim)[list[i].id := list[i].values] else OfDim(MapOf(list[..i]), dim)
  {
    MapOfOneMore(list, i);
    MapOfKeys(list[..i], m);
    NextOfDim(MapOf(list[..i]), list[i].id, list[i].values, dim);
  }

  /** rebuildANNLocked: a new graph over the listed vectors, without those whose dimension it refuses. */
  method BuildAnn(list: seq<Vector>, resolver: IdResolver, narrow: Narrowing, opts: AnnOptions, ghost m: Vectors) returns (next: AnnIndex)
    requires resolver.Valid() && ListsAll(list, m)
    requires forall i | 0 <= i < |list| :: |list[i].values| > 0 && ToFloat32(narrow, list[i].values) == list[i].values
    modifies resolver
    ensures next.Valid() && BrandNew(next) && next.narrow == narrow && TunedBy(next, opts) && resolver.Valid()
    ensures Mirrors(OfDim(MapOf(list), next.dim), resolver.idToInternal, resolver.internalToID, next.Live())
    ensures next.dim == FirstDim(list) && TakenFrom(m, next.dim) && next.deletedCount == 0
    ensures m.Keys <= old(resolver.idToInternal).Keys ==> resolver.idToInternal == old(resolver.idToInternal)
  {
    next := new AnnIndex(opts.m, opts.efConstruction, opts.efSearch, narrow);
    ghost var dim := FirstDim(list);
    for i := 0 to |list|
      invariant next.Valid() && BrandNew(next) && next.narrow == narrow && TunedBy(next, opts) && resolver.Valid()
      invariant Mirrors(OfDim(MapOf(list[..i]), dim), resolver.idToInternal, resolver.internalToID, next.Live())
      invariant next.dim == (if i == 0 then 0 else dim) && next.deletedCount == 0
      invariant m.Keys <= old(resolver.idToInternal).Keys ==> resolver.idToInternal == old(resolver.idToInternal)
    {
      AddListed(list, i, resolver, next, m, dim);
    }
    assert list[..|list|] == list;
    FirstDimIsTaken(list, m);
  }

  /** The next listed vector into the new graph, unless the graph refuses its dimension. */
  method AddListed(list: seq<Vector>, i: nat, resolver: IdResolver, next: AnnIndex, ghost m: Vectors, ghost dim: nat)
    requires next.Valid() && resolver.Valid() && ListsAll(list, m) && i < |list| && dim == FirstDim(list) > 0
    requires |list[i].values| > 0 && ToFloat32(next.narrow, list[i].values) == list[i].values
    requires Mirrors(OfDim(MapOf(list[..i]), dim), resolver.idToInternal, resolver.internalToID, next.Live())
    requires next.dim == if i == 0 then 0 else dim
    modifies resolver, next, next.pool, next.pool.visitedMarks
    ensures next.Valid() && next.OwnsAsBefore() && resolver.Valid() && next.dim == dim && next.deletedCount <= old(next.deletedCount)
    ensures Mirrors(OfDim(MapOf(list[..i + 1]), dim), resolver.idToInternal, resolver.internalToID, next.Live())
    ensures m.Keys <= old(resolver.idToInternal).Keys ==> resolver.idToInternal == old(resolver.idToInternal)
  {
    assert list[i] in list && list[i].id in m;
    var ignored := AddMirrored(list[i], resolver, next, OfDim(MapOf(list[..i]), dim));
    ListedNext(list, m, i, dim);
  }

  /** One vector into the resolver and the graph. */
  method AddMirrored(vec: Vector, resolver: IdResolver, ann: AnnIndex, ghost m: Vectors) returns (err: Option<AnnError>)
    requires resolver.Valid() && ann.Valid()
    requires Mirrors(m, resolver.idToInternal, resolver.internalToID, ann.Live())
    modifies resolver, ann, ann.pool, ann.pool.visitedMarks
    ensures resolver.Valid() && ann.Valid() && ann.OwnsAsBefore()
    ensures err.Some? <==> |vec.values| == 0 || (old(ann.dim) != 0 && |vec.values| != old(ann.dim))
    ensures ann.dim == (if err.None? then |vec.values| else old(ann.dim)) && ann.deletedCount <= old(ann.deletedCount)
    ensures err.Some? ==> Mirrors(m, resolver.idToInternal, resolver.internalToID, ann.Live())
    ensures vec.id in old(resolver.idToInternal) ==> resolver.idToInternal == old(resolver.idToInternal)
    ensures err.None? ==> Mirrors(m[vec.id := ToFloat32(ann.narrow, vec.values)], resolver.idToInternal, resolver.internalToID, ann.Live())
  {
    ghost var a, b, next, live := resolver.idToInternal, resolver.internalToID, resolver.nextInternal, ann.Live();
    var internalID := resolver.Assign(vec.id);
    ghost var t;
    err, t := ann.AddVector(internalID, vec.values);
    MirrorAssigned(m, a, b, next, live, vec.id, internalID);
    MirrorAdded(m, a, b, next, live, vec.id, internalID, ToFloat32(ann.narrow, vec.values));
  }

  /** The first call on a new service whose snapshot fails: the vector is stored and logged, and reported as an error. */
  method AppliedYetReported(cfg: Config, annOptions: AnnOptions, maxK: int, annMode: bool, vec: Vector, faults: Faults)
    returns (s: Service, err: Option<ServiceError>)
    requires CheckVector(cfg, vec).None? && !faults.store && !faults.wal && (faults.save || faults.truncate)
    ensures err == Some(ErrSnapshot) && s.Valid() && s.Map() == map[vec.id := ToFloat32(cfg.narrow, vec.values)]
    ensures s.Restorable()
  {
    s := new Service(cfg, annOptions, 1, maxK, annMode, 1, Disk(None, [], 0));
    FirstIsAccepted(cfg, vec, faults);
    err := s.AddVectors([vec], faults);
  }

  lemma FirstIsAccepted(cfg: Config, vec: Vector, faults: Faults)
    requires CheckVector(cfg, vec).None? && !faults.store && !faults.wal
    ensures BatchRefusal(cfg, map[], 0, [vec], faults).None? && RestoresTo(cfg, Disk(None, [], 0), map[])
    ensures Upserted(map[], cfg.narrow, [vec]) == map[vec.id := ToFloat32(cfg.narrow, vec.values)]
  {
    assert [vec][..0] == [];
    assert FirstRefusal(cfg, map[], [vec][..0]).None? && FirstRefusal(cfg, map[], [vec]).None?;
    assert Upserted(map[], cfg.narrow, [vec][..0]) == map[];
    assert SameLength(Loaded(cfg, None), 0) && ApplyAll(cfg, map[], []) == map[];
  }

  /** The vector is stored under its id, each component in stored precision. */
  ghost predicate StoredAs(m: Vectors, narrow: Narrowing, vec: Vector) {
    vec.id in m && |m[vec.id]| == |vec.values| && forall i | 0 <= i < |vec.values| :: m[vec.id][i] == narrow(vec.values[i])
  }

  lemma FineAreStored(cfg: Config, m: Vectors, batch: seq<Vector>)
    requires AllFine(cfg, m, batch)
    ensures forall i | 0 <= i < |batch| :: StoredAs(Upserted(m, cfg.narrow, batch), cfg.narrow, batch[i])
    ensures forall id | id in m :: id in Upserted(m, cfg.narrow, batch) && Upserted(m, cfg.narrow, batch)[id] == m[id]
  {
    forall i | 0 <= i < |batch|
      ensures StoredAs(Upserted(m, cfg.narrow, batch), cfg.narrow, batch[i])
    {
      forall j | i < j < |batch|
        ensures batch[j].id != batch[i].id
      {
        assert IsFine(cfg, m, batch, j);
      }
      LastOfBatchWins(m, cfg.narrow, batch, batch[i].id, i);
    }
    forall id | id in m
      ensures id in Upserted(m, cfg.narrow, batch) && Upserted(m, cfg.narrow, batch)[id] == m[id]
    {
      forall j | 0 <= j < |batch|
        ensures batch[j].id != id
      {
        assert IsFine(cfg, m, batch, j);
      }
      LastOfBatchWins(m, cfg.narrow, batch, id, |batch|);
    }
  }

  /**
    Every well-formed batch of new ids is stored, whatever characters the ids are made of beside
    white space; and every other batch is refused, and changes nothing.
   */
  method AddFine(s: Service, vectors: seq<Vector>, faults: Faults) returns (err: Option<ServiceError>)
    requires s.Valid() && !faults.store && !faults.wal && !faults.sync && !faults.save && !faults.truncate
    modifies s, s.index, s.store, s.store.ids, s.resolver, s.persistence, s.ann, s.ann.pool, s.ann.pool.visitedMarks
    ensures s.Valid()
    ensures err.None? <==> old(vectors != [] && AllFine(s.cfg, s.Map(), vectors) && FitsDimension(s.ann.dim, vectors))
    ensures err.None? ==> forall i | 0 <= i < |vectors| :: StoredAs(s.Map(), s.cfg.narrow, vectors[i])
    ensures forall id | id in old(s.Map()) :: id in s.Map() && s.Map()[id] == old(s.Map())[id]
    ensures err.Some? ==> s.Map() == old(s.Map())
  {
    AcceptedIffFine(s.cfg, s.Map(), s.ann.dim, vectors, faults);
    if AllFine(s.cfg, s.Map(), vectors) {
      FineAreStored(s.cfg, s.Map(), vectors);
    }
    err := s.AddVectors(vectors, faults);
  }

  /** Every stored id with text in it can be deleted, and nothing else. */
  method DeleteStoredId(s: Service, id: Id, faults: Faults) returns (err: Option<ServiceError>)
    requires s.Valid() && !faults.store && !faults.wal && !faults.sync && !faults.save && !faults.truncate
    modifies s, s.index, s.store, s.store.ids, s.resolver, s.persistence, s.ann, s.ann.pool, s.ann.pool.visitedMarks
    ensures s.Valid()
    ensures err == if !HasText(id) then Some(ErrInvalidID) else if id !in old(s.Map()) then Some(ErrVectorNotFound) else None
    ensures s.Map() == if err.None? then old(s.Map()) - {id} else old(s.Map())
  {
    DeletedIffStored(s.Map(), id, faults);
    err := s.DeleteVector(id, faults);
  }
}
