/**
  How the structures of the service mirror one another (internal/core/service.go): the exact
  index, the vector store, and the live nodes of the ANN graph seen through the id resolver.
 */
module ServiceState {
  import opened Distance
  import opened VectorStores
  import opened Wal
  import opened IdResolvers

  /** The live ANN vectors are exactly the stored ones, under their internal ids. */
  ghost predicate Mirrors(m: Vectors, idToInternal: map<Id, int>, internalToID: map<int, Id>, live: map<int, Vec>) {
    && (forall id | id in m :: id in idToInternal && idToInternal[id] in live && live[idToInternal[id]] == m[id])
    && (forall k | k in live :: k in internalToID && internalToID[k] in m && idToInternal[internalToID[k]] == k)
  }

  lemma MirrorAdded(m: Vectors, a: map<Id, int>, b: map<int, Id>, next: int, live: map<int, Vec>, id: Id, k: int, v: Vec)
    requires Mirrors(m, a, b, live) && Inverse(a, b, next)
    requires if id in a then k == a[id] else k !in b
    ensures Mirrors(m[id := v], a[id := k], b[k := id], live[k := v])
  {
  }

  lemma MirrorRemoved(m: Vectors, a: map<Id, int>, b: map<int, Id>, next: int, live: map<int, Vec>, id: Id)
    requires Mirrors(m, a, b, live) && Inverse(a, b, next) && id in m
    ensures id in a && Mirrors(m - {id}, a - {id}, b - {a[id]}, live - {a[id]})
  {
  }

  /** An id that gets a number without a vector changes nothing. */
  lemma MirrorAssigned(m: Vectors, a: map<Id, int>, b: map<int, Id>, next: int, live: map<int, Vec>, id: Id, k: int)
    requires Mirrors(m, a, b, live) && Inverse(a, b, next)
    requires if id in a then k == a[id] else k !in b
    ensures Mirrors(m, a[id := k], b[k := id], live)
  {
  }

  /** A graph mirrors one map only. */
  lemma MirrorsOne(m: Vectors, n: Vectors, a: map<Id, int>, b: map<int, Id>, next: int, live: map<int, Vec>)
    requires Mirrors(m, a, b, live) && Mirrors(n, a, b, live) && Inverse(a, b, next)
    ensures m == n
  {
    assert forall id | id in m :: id in n && m[id] == n[id];
    assert forall id | id in n :: id in m;
  }

  ghost predicate SameLength(m: Vectors, dim: nat) {
    forall id | id in m :: |m[id]| == dim
  }

  /** The vectors that a graph of this dimension takes. */
  ghost function OfDim(m: Vectors, dim: nat): Vectors {
    map id | id in m && |m[id]| == dim :: m[id]
  }

  /** A graph built over m has the dimension of one of its vectors, or none. */
  ghost predicate TakenFrom(m: Vectors, dim: nat) {
    if m == map[] then dim == 0 else exists id :: id in m && |m[id]| == dim
  }

  lemma UniformIsWhole(m: Vectors, dim: nat)
    requires TakenFrom(m, dim)
    ensures Uniform(m) <==> SameLength(m, dim)
    ensures Uniform(m) <==> OfDim(m, dim) == m
  {
    if Uniform(m) {
      var d: nat :| SameLength(m, d);
      assert forall id | id in m :: id in OfDim(m, dim);
    }
    if OfDim(m, dim) == m {
      assert SameLength(OfDim(m, dim), dim);
    }
  }

  lemma NextOfDim(m: Vectors, id: Id, v: Vec, dim: nat)
    requires id !in m
    ensures OfDim(m[id := v], dim) == if |v| == dim then OfDim(m, dim)[id := v] else OfDim(m, dim)
  {
  }

  ghost predicate Uniform(m: Vectors) {
    exists dim: nat :: SameLength(m, dim)
  }

  /** A restart from this disk succeeds and computes m. */
  ghost predicate RestoresTo(cfg: Config, disk: Disk, m: Vectors) {
    Recover(cfg, disk) == m && Uniform(Loaded(cfg, disk.snapshot))
  }

  lemma FlushRestores(cfg: Config, disk: Disk, m: Vectors, ops: seq<Op>)
    requires RestoresTo(cfg, disk, m)
    ensures RestoresTo(cfg, disk.Flush(ops), ApplyAll(cfg, m, ops))
  {
    ApplyAppended(cfg, Loaded(cfg, disk.snapshot), disk.wal, ops);
  }

  /** Replacing the snapshot by the current map never changes what a restart computes, before or after the WAL is emptied. */
  lemma SaveRecovers(cfg: Config, disk: Disk, m: Vectors)
    requires Sound(cfg, m) && Recover(cfg, disk) == m
    ensures Recover(cfg, disk.Save(m)) == m && Recover(cfg, disk.Save(m).Truncate()) == m && Loaded(cfg, Some(m)) == m
  {
    ReplayTwice(cfg, Loaded(cfg, disk.snapshot), disk.wal);
    SaveThenLoad(cfg, m);
  }

  lemma SaveRestores(cfg: Config, disk: Disk, m: Vectors)
    requires Sound(cfg, m) && Uniform(m) && Recover(cfg, disk) == m
    ensures RestoresTo(cfg, disk.Save(m), m) && RestoresTo(cfg, disk.Save(m).Truncate(), m)
  {
    SaveRecovers(cfg, disk, m);
  }

  /** The operations that a replay gets to; a line that it cannot read stops it. */
  function ReadBefore(wal: seq<Op>, stop: Option<nat>): (r: seq<Op>)
    ensures stop.None? ==> r == wal
    ensures stop.Some? && stop.value <= |wal| ==> |r| == stop.value && r <= wal
  {
    if stop.Some? && stop.value <= |wal| then wal[..stop.value] else wal
  }

  /** A restart gets through both files; a snapshot is read to its end only if its vectors have one dimension. */
  ghost predicate ReadsAll(cfg: Config, disk: Disk, faults: Faults, stop: Option<nat>) {
    !faults.load && Uniform(Loaded(cfg, disk.snapshot)) && stop.None?
  }

  /** The vectors listed so far. */
  ghost function MapOf(list: seq<Vector>): Vectors {
    if list == [] then map[] else MapOf(list[..|list| - 1])[list[|list| - 1].id := list[|list| - 1].values]
  }

  lemma {:induction false} MapOfKeys(list: seq<Vector>, m: Vectors)
    requires forall v | v in list :: v.id in m && m[v.id] == v.values
    ensures MapOf(list).Keys == ListedIds(list)
    ensures forall id | id in MapOf(list) :: id in m && MapOf(list)[id] == m[id]
  {
    if list != [] {
      var n := |list| - 1;
      assert list == list[..n] + [list[n]];
      MapOfKeys(list[..n], m);
      assert ListedIds(list) == ListedIds(list[..n]) + {list[n].id};
    }
  }

  lemma MapOfAll(list: seq<Vector>, m: Vectors)
    requires ListsAll(list, m)
    ensures MapOf(list) == m
  {
    MapOfKeys(list, m);
  }

  /** strings.TrimSpace(id) == "" */
  predicate IsBlank(id: Id) {
    forall i | 0 <= i < |id| :: IsSpace(id[i])
  }

  predicate IsSpace(c: char) {
    var n := c as int;
    9 <= n <= 13 || n == 0x20 || n == 0x85 || n == 0xA0 || n == 0x1680 || 0x2000 <= n <= 0x200A
    || n == 0x2028 || n == 0x2029 || n == 0x202F || n == 0x205F || n == 0x3000
  }

  /** None of Unicode's white-space characters. */
  ghost predicate IsText(c: char) {
    (c as int) !in {9, 10, 11, 12, 13, 32, 133, 160, 5760, 8192, 8193, 8194, 8195, 8196, 8197, 8198, 8199, 8200, 8201, 8202,
      8232, 8233, 8239, 8287, 12288}
  }

  /** Trimming white space leaves something of the id. */
  ghost predicate HasText(id: Id) {
    exists i :: 0 <= i < |id| && IsText(id[i])
  }

  lemma BlankHasNoText(id: Id)
    ensures IsBlank(id) <==> !HasText(id)
  {
    assert forall i | 0 <= i < |id| :: IsSpace(id[i]) <==> !IsText(id[i]);
  }

  datatype ServiceError =
    | ErrInvalidID | ErrInvalidValues | ErrVectorDimTooHigh | ErrVectorExists | ErrVectorNotFound
    | ErrInvalidVectorDim | ErrInvalidK | ErrKTooHigh | ErrStore | ErrWAL | ErrSnapshot

  /** Which I/O steps of a call fail. */
  datatype Faults = Faults(store: bool, wal: bool, sync: bool, save: bool, truncate: bool, load: bool)

  function CheckVector(cfg: Config, vec: Vector): Option<ServiceError> {
    if IsBlank(vec.id) then Some(ErrInvalidID)
    else if |vec.values| == 0 then Some(ErrInvalidValues)
    else if |vec.values| > cfg.maxVectorDim then Some(ErrVectorDimTooHigh)
    else None
  }

  /** Every id of the batch is new and comes once, and every vector is well formed. */
  ghost predicate Insertable(cfg: Config, m: Vectors, batch: seq<Vector>) {
    (forall i: nat :: IsNew(cfg, m, batch, i)) && forall i: nat, j: nat :: IsDistinct(batch, i, j)
  }

  ghost predicate IsNew(cfg: Config, m: Vectors, batch: seq<Vector>, i: nat) {
    i < |batch| ==> CheckVector(cfg, batch[i]).None? && batch[i].id !in m
  }

  ghost predicate IsDistinct(batch: seq<Vector>, i: nat, j: nat) {
    i < j < |batch| ==> batch[i].id != batch[j].id
  }

  lemma InsertableMeans(cfg: Config, m: Vectors, batch: seq<Vector>)
    requires Insertable(cfg, m, batch)
    ensures forall i | 0 <= i < |batch| :: CheckVector(cfg, batch[i]).None? && batch[i].id !in m && |batch[i].values| > 0
  {
    forall i | 0 <= i < |batch|
      ensures CheckVector(cfg, batch[i]).None? && batch[i].id !in m && |batch[i].values| > 0
    {
      assert IsNew(cfg, m, batch, i);
    }
  }

  /** The error for the first vector of a batch that is malformed or whose id is taken. */
  ghost function FirstRefusal(cfg: Config, m: Vectors, batch: seq<Vector>): (r: Option<ServiceError>)
    ensures r.None? || r.value.ErrInvalidID? || r.value.ErrInvalidValues? || r.value.ErrVectorDimTooHigh? || r.value.ErrVectorExists?
  {
    if batch == [] then None
    else
      var n := |batch| - 1;
      var earlier := FirstRefusal(cfg, m, batch[..n]);
      if earlier.Some? then earlier
      else if CheckVector(cfg, batch[n]).Some? then CheckVector(cfg, batch[n])
      else if batch[n].id in m || batch[n].id in IdsOf(batch[..n]) then Some(ErrVectorExists)
      else None
  }

  lemma {:induction false} RefusalStays(cfg: Config, m: Vectors, batch: seq<Vector>, i: nat)
    requires i <= |batch| && FirstRefusal(cfg, m, batch[..i]).Some?
    ensures FirstRefusal(cfg, m, batch) == FirstRefusal(cfg, m, batch[..i])
  {
    if i == |batch| {
      assert batch[..i] == batch;
    } else {
      var n := |batch| - 1;
      assert batch[..n][..i] == batch[..i];
      RefusalStays(cfg, m, batch[..n], i);
    }
  }

  lemma {:induction false} InsertableIsNotRefused(cfg: Config, m: Vectors, batch: seq<Vector>)
    requires Insertable(cfg, m, batch)
    ensures FirstRefusal(cfg, m, batch).None?
  {
    if batch != [] {
      var n := |batch| - 1;
      forall i: nat
        ensures IsNew(cfg, m, batch[..n], i)
      {
        assert IsNew(cfg, m, batch, i);
      }
      forall i: nat, j: nat
        ensures IsDistinct(batch[..n], i, j)
      {
        assert IsDistinct(batch, i, j);
      }
      InsertableIsNotRefused(cfg, m, batch[..n]);
      assert IsNew(cfg, m, batch, n);
      forall v | v in batch[..n]
        ensures v.id != batch[n].id
      {
        var i: nat :| i < n && batch[..n][i] == v;
        assert IsDistinct(batch, i, n);
      }
    }
  }

  /** Why AddVectors takes a batch back, in the order in which it finds out. */
  ghost function BatchRefusal(cfg: Config, m: Vectors, dim: nat, batch: seq<Vector>, faults: Faults): Option<ServiceError> {
    if batch == [] then Some(ErrInvalidValues)
    else if FirstRefusal(cfg, m, batch).Some? then FirstRefusal(cfg, m, batch)
    else if faults.store then Some(ErrStore)
    else if !OneDimension(dim, batch) then Some(ErrInvalidVectorDim)
    else if faults.wal then Some(ErrWAL)
    else None
  }

  /** Vector i is well formed, and neither stored nor earlier in the batch. */
  ghost predicate IsFine(cfg: Config, m: Vectors, batch: seq<Vector>, i: nat) {
    i < |batch| ==>
      && HasText(batch[i].id) && 1 <= |batch[i].values| <= cfg.maxVectorDim
      && batch[i].id !in m && forall j | 0 <= j < i :: batch[j].id != batch[i].id
  }

  ghost predicate AllFine(cfg: Config, m: Vectors, batch: seq<Vector>) {
    forall i: nat :: IsFine(cfg, m, batch, i)
  }

  lemma {:induction false} FineIsNotRefused(cfg: Config, m: Vectors, batch: seq<Vector>)
    ensures FirstRefusal(cfg, m, batch).None? <==> AllFine(cfg, m, batch)
  {
    if batch != [] {
      var n := |batch| - 1;
      FineIsNotRefused(cfg, m, batch[..n]);
      BlankHasNoText(batch[n].id);
      LastIsListed(batch);
      FineSoFar(cfg, m, batch);
    }
  }

  lemma LastIsListed(batch: seq<Vector>)
    requires batch != []
    ensures var n := |batch| - 1; batch[n].id in IdsOf(batch[..n]) <==> exists j :: 0 <= j < n && batch[j].id == batch[n].id
  {
    var n := |batch| - 1;
    if j :| 0 <= j < n && batch[j].id == batch[n].id {
      assert batch[..n][j] in batch[..n];
    }
  }

  lemma FineSoFar(cfg: Config, m: Vectors, batch: seq<Vector>)
    requires batch != []
    ensures AllFine(cfg, m, batch) <==>
      AllFine(cfg, m, batch[..|batch| - 1]) && IsFine(cfg, m, batch, |batch| - 1)
  {
    var n := |batch| - 1;
    forall i: nat
      ensures i != n ==> (IsFine(cfg, m, batch, i) <==> IsFine(cfg, m, batch[..n], i))
    {
    }
    if AllFine(cfg, m, batch) {
      forall i: nat
        ensures IsFine(cfg, m, batch[..n], i)
      {
        assert IsFine(cfg, m, batch, i);
      }
    }
    if AllFine(cfg, m, batch[..n]) && IsFine(cfg, m, batch, n) {
      forall i: nat
        ensures IsFine(cfg, m, batch, i)
      {
        assert IsFine(cfg, m, batch[..n], i);
      }
    }
  }

  /** All vectors have the graph's dimension, or, while it has none, that of the first. */
  ghost predicate FitsDimension(dim: nat, batch: seq<Vector>) {
    forall i | 0 <= i < |batch| :: |batch[i].values| == if dim == 0 then |batch[0].values| else dim
  }

  /** What AddVectors accepts, and the error for what it takes back, without the checks it makes. */
  lemma AcceptedIffFine(cfg: Config, m: Vectors, dim: nat, batch: seq<Vector>, faults: Faults)
    ensures BatchRefusal(cfg, m, dim, batch, faults).None? <==>
      && batch != [] && AllFine(cfg, m, batch) && FitsDimension(dim, batch)
      && !faults.store && !faults.wal
    ensures batch == [] ==> BatchRefusal(cfg, m, dim, batch, faults) == Some(ErrInvalidValues)
    ensures batch != [] && AllFine(cfg, m, batch) ==>
              BatchRefusal(cfg, m, dim, batch, faults) ==
                if faults.store then Some(ErrStore)
                else if !FitsDimension(dim, batch) then Some(ErrInvalidVectorDim)
                else if faults.wal then Some(ErrWAL)
                else None
  {
    FineIsNotRefused(cfg, m, batch);
  }

  /** The first vector that is not fine decides the error. */
  lemma FirstBadDecides(cfg: Config, m: Vectors, dim: nat, batch: seq<Vector>, faults: Faults, i: nat)
    requires i < |batch| && AllFine(cfg, m, batch[..i]) && !IsFine(cfg, m, batch, i)
    ensures BatchRefusal(cfg, m, dim, batch, faults) == Some(
              if !HasText(batch[i].id) then ErrInvalidID
              else if batch[i].values == [] then ErrInvalidValues
              else if |batch[i].values| > cfg.maxVectorDim then ErrVectorDimTooHigh
              else ErrVectorExists)
  {
    var short := batch[..i + 1];
    assert short[..i] == batch[..i];
    FineIsNotRefused(cfg, m, short[..i]);
    BlankHasNoText(batch[i].id);
    LastIsListed(short);
    RefusalStays(cfg, m, batch, i + 1);
  }

  /** What DeleteVector accepts, and the error for what it refuses. */
  lemma DeletedIffStored(m: Vectors, id: Id, faults: Faults)
    ensures DeleteRefusal(m, id, faults) ==
      if !HasText(id) then Some(ErrInvalidID)
      else if id !in m then Some(ErrVectorNotFound)
      else if faults.store then Some(ErrStore)
      else if faults.wal then Some(ErrWAL)
      else None
  {
    BlankHasNoText(id);
  }

  /** The graph's dimension after a batch: an accepted batch sets it on an empty graph, and taking a batch back rebuilds the graph. */
  ghost function DimAfter(cfg: Config, m: Vectors, dim: nat, batch: seq<Vector>, faults: Faults): nat {
    if batch == [] then dim
    else if BatchRefusal(cfg, m, dim, batch, faults).None? then CommonDim(dim, batch)
    else if m == map[] then 0
    else dim
  }

  /**
    A batch refused for its dimension alone is accepted when it comes again exactly if nothing is
    stored, so that only the dimension of deleted vectors stood in its way.
   */
  lemma RefusedOnce(cfg: Config, m: Vectors, dim: nat, batch: seq<Vector>, faults: Faults, again: Faults)
    requires BatchRefusal(cfg, m, dim, batch, faults) == Some(ErrInvalidVectorDim) && !again.store && !again.wal
    ensures BatchRefusal(cfg, m, DimAfter(cfg, m, dim, batch, faults), batch, again).None? <==> m == map[] && OneDimension(0, batch)
  {
  }

  /** Why DeleteVector takes the delete of a stored id back. */
  function DeleteFault(faults: Faults): Option<ServiceError> {
    if faults.store then Some(ErrStore) else if faults.wal then Some(ErrWAL) else None
  }

  /** Why DeleteVector changes nothing. */
  function DeleteRefusal(m: Vectors, id: Id, faults: Faults): Option<ServiceError> {
    if IsBlank(id) then Some(ErrInvalidID)
    else if id !in m then Some(ErrVectorNotFound)
    else DeleteFault(faults)
  }

  /** Every vector of the batch has the dimension of the index, or of the first vector if the index is empty. */
  ghost predicate OneDimension(dim: nat, batch: seq<Vector>) {
    forall i | 0 <= i < |batch| :: |batch[i].values| == CommonDim(dim, batch)
  }

  /** The first i vectors all have that dimension, and the graph has taken it on. */
  ghost predicate DimensionAfter(dim: nat, batch: seq<Vector>, i: nat, annDim: nat)
    requires i <= |batch|
  {
    && (forall j | 0 <= j < i :: |batch[j].values| == CommonDim(dim, batch))
    && annDim == if i == 0 then dim else CommonDim(dim, batch)
  }

  function CommonDim(dim: nat, batch: seq<Vector>): nat {
    if dim == 0 && batch != [] then |batch[0].values| else dim
  }

  function UpsertOps(batch: seq<Vector>): (r: seq<Op>)
    ensures |r| == |batch| && forall i | 0 <= i < |r| :: r[i] == Upsert(batch[i].id, batch[i].values)
  {
    seq(|batch|, i requires 0 <= i < |batch| => Upsert(batch[i].id, batch[i].values))
  }

  ghost function IdsOf(batch: seq<Vector>): set<Id> {
    set v | v in batch :: v.id
  }

  /** The batch in the store is the batch in the log. */
  lemma {:induction false} UpsertedIsApplied(cfg: Config, m: Vectors, batch: seq<Vector>)
    requires forall i | 0 <= i < |batch| :: CheckVector(cfg, batch[i]).None?
    ensures Upserted(m, cfg.narrow, batch) == ApplyAll(cfg, m, UpsertOps(batch))
  {
    if batch != [] {
      var n := |batch| - 1;
      UpsertedIsApplied(cfg, m, batch[..n]);
      assert UpsertOps(batch)[..n] == UpsertOps(batch[..n]);
      assert CheckVector(cfg, batch[n]).None?;
    }
  }

  lemma DeleteIsApplied(cfg: Config, m: Vectors, id: Id)
    ensures id != "" ==> ApplyAll(cfg, m, [Delete(id)]) == m - {id}
  {
    assert [Delete(id)][..0] == [];
  }

  lemma {:induction false} UpsertedKeys(m: Vectors, narrow: Narrowing, batch: seq<Vector>)
    ensures Upserted(m, narrow, batch).Keys == m.Keys + IdsOf(batch)
    ensures forall id | id in m && id !in IdsOf(batch) :: Upserted(m, narrow, batch)[id] == m[id]
  {
    if batch != [] {
      var n := |batch| - 1;
      assert batch == batch[..n] + [batch[n]];
      UpsertedKeys(m, narrow, batch[..n]);
      assert IdsOf(batch) == IdsOf(batch[..n]) + {batch[n].id};
    }
  }

  /** Taking the ids of a new batch out again restores the map. */
  lemma RemovedAgain(m: Vectors, narrow: Narrowing, batch: seq<Vector>)
    requires forall i | 0 <= i < |batch| :: batch[i].id !in m
    ensures Upserted(m, narrow, batch) - IdsOf(batch) == m
  {
    UpsertedKeys(m, narrow, batch);
    assert IdsOf(batch) !! m.Keys;
  }

  /** What the persistence layer holds between calls. */
  datatype Durable = Durable(disk: Disk, pending: nat, persistOps: nat)

  /** appendWALBatch */
  function AppendedTo(d: Durable, syncEvery: nat, ops: seq<Op>): Durable {
    if d.pending + |ops| >= syncEvery then d.(disk := d.disk.Flush(ops).Fsync(), pending := 0)
    else d.(disk := d.disk.Flush(ops), pending := d.pending + |ops|)
  }

  /** A due snapshot fails when one of its steps does; Sync does no I/O when nothing is pending. */
  predicate SnapshotFails(d: Durable, snapshotEvery: int, faults: Faults) {
    d.persistOps + 1 >= snapshotEvery && ((faults.sync && d.pending != 0) || faults.save || faults.truncate)
  }

  /** maybeSnapshot: how far it gets. */
  function AfterSnapshot(d: Durable, snapshotEvery: int, m: Vectors, faults: Faults): Durable {
    if d.persistOps + 1 < snapshotEvery || (faults.sync && d.pending != 0) then d.(persistOps := d.persistOps + 1)
    else
      var disk := if d.pending == 0 then d.disk else d.disk.Fsync();
      if faults.save then Durable(disk, 0, d.persistOps + 1)
      else if faults.truncate then Durable(disk.Save(m), 0, d.persistOps + 1)
      else Durable(disk.Save(m).Truncate(), 0, 0)
  }

  /** The disk part of restoreState: how far it gets. */
  function AfterRestore(d: Durable, m: Vectors, faults: Faults): Durable {
    if faults.load || faults.save then d
    else if faults.truncate then d.(disk := d.disk.Save(m))
    else Durable(d.disk.Save(m).Truncate(), 0, 0)
  }

  lemma RemovedIsSound(cfg: Config, m: Vectors, id: Id)
    requires Sound(cfg, m)
    ensures Sound(cfg, m - {id})
  {
  }

  lemma EmptyUnlessDim(cfg: Config, m: Vectors)
    requires Sound(cfg, m) && SameLength(m, 0)
    ensures m == map[]
  {
  }

  /** Every prefix of an accepted batch leaves vectors of one dimension, as a crash inside the batch would. */
  lemma {:induction false} PrefixHasOneDimension(cfg: Config, m: Vectors, dim: nat, batch: seq<Vector>, i: nat)
    requires Sound(cfg, m) && SameLength(m, dim) && OneDimension(dim, batch) && i <= |batch|
    ensures SameLength(Upserted(m, cfg.narrow, batch[..i]), if i == 0 || dim != 0 then dim else |batch[0].values|)
  {
    if i > 0 {
      PrefixHasOneDimension(cfg, m, dim, batch, i - 1);
      assert batch[..i][..i - 1] == batch[..i - 1];
      if dim == 0 {
        EmptyUnlessDim(cfg, m);
      }
    }
  }

  lemma UpsertedIsSound(cfg: Config, m: Vectors, batch: seq<Vector>)
    requires Sound(cfg, m) && forall i | 0 <= i < |batch| :: CheckVector(cfg, batch[i]).None?
    ensures Sound(cfg, Upserted(m, cfg.narrow, batch))
  {
    UpsertedIsApplied(cfg, m, batch);
    AppliedIsSound(cfg, m, UpsertOps(batch));
  }

  lemma LoadedIsSound(cfg: Config, snapshot: Option<Vectors>)
    ensures Sound(cfg, Loaded(cfg, snapshot))
  {
    if snapshot.Some? {
      forall id | id in snapshot.value
        ensures ToFloat32(cfg.narrow, ToFloat32(cfg.narrow, snapshot.value[id])) == ToFloat32(cfg.narrow, snapshot.value[id])
      {
        NarrowTwice(cfg.narrow, snapshot.value[id]);
      }
    }
  }

  /** The part of a snapshot that loadSnapshot has been through. */
  ghost function LoadedPart(cfg: Config, m: Vectors, ids: set<Id>): Vectors {
    map id | id in m && id in ids && Storable(cfg, id, m[id]) :: ToFloat32(cfg.narrow, m[id])
  }

  lemma LoadedOneMore(cfg: Config, m: Vectors, list: seq<Vector>, i: nat)
    requires ListsAll(list, m) && i < |list|
    ensures var before := LoadedPart(cfg, m, ListedIds(list[..i])); var after := LoadedPart(cfg, m, ListedIds(list[..i + 1]));
      && list[i].id !in before
      && after == if Storable(cfg, list[i].id, list[i].values) then before[list[i].id := ToFloat32(cfg.narrow, list[i].values)] else before
  {
    assert list[i] in list;
    assert ListedIds(list[..i + 1]) == ListedIds(list[..i]) + {list[i].id} by {
      assert list[..i + 1] == list[..i] + [list[i]];
    }
    assert list[i].id !in ListedIds(list[..i]) by {
      assert forall v | v in list[..i] :: v.id != list[i].id;
    }
  }

  lemma LoadedWhole(cfg: Config, m: Vectors, list: seq<Vector>)
    requires ListsAll(list, m)
    ensures LoadedPart(cfg, m, ListedIds(list)) == Loaded(cfg, Some(m))
  {
  }

  function ValidateSearch(cfg: Config, maxK: int, values: Vec, k: int): Option<ServiceError> {
    if |values| == 0 then Some(ErrInvalidValues)
    else if k <= 0 then Some(ErrInvalidK)
    else if k > maxK then Some(ErrKTooHigh)
    else if |values| > cfg.maxVectorDim then Some(ErrVectorDimTooHigh)
    else None
  }

  /** Exactly the searches for 1 to maxK neighbours with 1 to maxVectorDim components are accepted; otherwise the first failing check gives the error. */
  lemma SearchedIffInRange(cfg: Config, maxK: int, values: Vec, k: int)
    ensures ValidateSearch(cfg, maxK, values, k).None? <==> 1 <= k <= maxK && 1 <= |values| <= cfg.maxVectorDim
    ensures values == [] <==> ValidateSearch(cfg, maxK, values, k) == Some(ErrInvalidValues)
    ensures values != [] && k <= 0 <==> ValidateSearch(cfg, maxK, values, k) == Some(ErrInvalidK)
    ensures values != [] && k > 0 && k > maxK <==> ValidateSearch(cfg, maxK, values, k) == Some(ErrKTooHigh)
    ensures 1 <= k <= maxK && |values| > 0 && |values| > cfg.maxVectorDim <==> ValidateSearch(cfg, maxK, values, k) == Some(ErrVectorDimTooHigh)
  {
  }
}
