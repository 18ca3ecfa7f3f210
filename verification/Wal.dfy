/**
  The write-ahead log and the snapshot (internal/core/persistence.go), what replaying
  operations means, and the disk they live on: the snapshot is replaced atomically, the log is
  a sequence of operations of which a prefix is known to be synced.
 */
module Wal {
  import opened Distance
  import opened VectorStores

  datatype Op = Upsert(id: Id, values: Vec) | Delete(id: Id) | Unknown(id: Id)

  datatype Config = Config(narrow: Narrowing, maxVectorDim: nat)

  /** What restore accepts, and what the service logs. */
  predicate Storable(cfg: Config, id: Id, values: Vec) {
    id != "" && 0 < |values| <= cfg.maxVectorDim
  }

  /** The effect of replaying one operation on the stored vectors. */
  function Apply(cfg: Config, m: Vectors, op: Op): Vectors {
    match op
    case Upsert(id, values) => if Storable(cfg, id, values) then m[id := ToFloat32(cfg.narrow, values)] else m
    case Delete(id) => if id == "" then m else m - {id}
    case Unknown(_) => m
  }

  ghost function ApplyAll(cfg: Config, m: Vectors, ops: seq<Op>): Vectors {
    if ops == [] then m else Apply(cfg, ApplyAll(cfg, m, ops[..|ops| - 1]), ops[|ops| - 1])
  }

  /** The vectors after a whole history. */
  ghost function State(cfg: Config, log: seq<Op>): Vectors {
    ApplyAll(cfg, map[], log)
  }

  lemma {:induction false} ApplyAppended(cfg: Config, m: Vectors, a: seq<Op>, b: seq<Op>)
    ensures ApplyAll(cfg, m, a + b) == ApplyAll(cfg, ApplyAll(cfg, m, a), b)
  {
    if b == [] {
      assert a + b == a;
    } else {
      var n := |b| - 1;
      ApplyAppended(cfg, m, a, b[..n]);
      assert (a + b)[..|a + b| - 1] == a + b[..n];
    }
  }

  ghost predicate SameAt(a: Vectors, b: Vectors, id: Id) {
    (id in a <==> id in b) && (id in a ==> a[id] == b[id])
  }

  /** After a log, an id either no longer depends on the starting map, or is as it was there. */
  lemma {:induction false} LastWriterDecides(cfg: Config, a: Vectors, b: Vectors, ops: seq<Op>, id: Id)
    ensures SameAt(ApplyAll(cfg, a, ops), ApplyAll(cfg, b, ops), id)
      || (SameAt(ApplyAll(cfg, a, ops), a, id) && SameAt(ApplyAll(cfg, b, ops), b, id))
  {
    if ops != [] {
      LastWriterDecides(cfg, a, b, ops[..|ops| - 1], id);
    }
  }

  /** Operation k says something about id: it deletes it, or puts a vector of 1 to maxVectorDim components under a name that is not empty. */
  predicate Decides(cfg: Config, op: Op, id: Id) {
    op.id == id != "" && (op.Delete? || (op.Upsert? && 1 <= |op.values| <= cfg.maxVectorDim))
  }

  /** The last operation that says something about an id decides what a replay makes of it, in stored precision; all others are skipped. */
  lemma {:induction false} LastOperationDecides(cfg: Config, m: Vectors, ops: seq<Op>, id: Id, k: nat)
    requires k <= |ops| && (k < |ops| ==> Decides(cfg, ops[k], id))
    requires forall j | k < j < |ops| :: !Decides(cfg, ops[j], id)
    requires k == |ops| ==> forall j | 0 <= j < |ops| :: !Decides(cfg, ops[j], id)
    ensures id in ApplyAll(cfg, m, ops) <==> if k < |ops| then ops[k].Upsert? else id in m
    ensures k == |ops| && id in m ==> ApplyAll(cfg, m, ops)[id] == m[id]
    ensures k < |ops| && ops[k].Upsert? ==> |ApplyAll(cfg, m, ops)[id]| == |ops[k].values|
    ensures k < |ops| && ops[k].Upsert? ==> forall i | 0 <= i < |ops[k].values| :: ApplyAll(cfg, m, ops)[id][i] == cfg.narrow(ops[k].values[i])
  {
    var n := |ops| - 1;
    if 0 <= n && k != n {
      LastOperationDecides(cfg, m, ops[..n], id, if k > n then n else k);
      assert !Decides(cfg, ops[n], id);
    }
  }

  /** Replaying a whole log over a map that already includes it changes nothing. */
  lemma ReplayTwice(cfg: Config, m: Vectors, ops: seq<Op>)
    ensures ApplyAll(cfg, ApplyAll(cfg, m, ops), ops) == ApplyAll(cfg, m, ops)
  {
    var once := ApplyAll(cfg, m, ops);
    var twice := ApplyAll(cfg, once, ops);
    forall id
      ensures SameAt(twice, once, id)
    {
      LastWriterDecides(cfg, m, once, ops, id);
    }
    MapsAreSame(twice, once);
  }

  lemma MapsAreSame(a: Vectors, b: Vectors)
    requires forall id :: SameAt(a, b, id)
    ensures a == b
  {
    assert forall id :: id in a <==> id in b by {
      forall id
        ensures id in a <==> id in b
      {
        assert SameAt(a, b, id);
      }
    }
    forall id | id in a
      ensures a[id] == b[id]
    {
      assert SameAt(a, b, id);
    }
  }

  /** What a running service holds: stored precision, storable sizes. */
  ghost predicate Sound(cfg: Config, m: Vectors) {
    forall id | id in m :: Storable(cfg, id, m[id]) && ToFloat32(cfg.narrow, m[id]) == m[id]
  }

  lemma {:induction false} AppliedIsSound(cfg: Config, m: Vectors, ops: seq<Op>)
    requires Sound(cfg, m)
    ensures Sound(cfg, ApplyAll(cfg, m, ops))
  {
    if ops != [] {
      var n := |ops| - 1;
      AppliedIsSound(cfg, m, ops[..n]);
      if ops[n].Upsert? {
        NarrowTwice(cfg.narrow, ops[n].values);
      }
    }
  }

  /** What loadSnapshot makes of the snapshot file; a missing file is an empty store. */
  ghost function Loaded(cfg: Config, snapshot: Option<Vectors>): Vectors {
    if snapshot.None? then map[]
    else map id | id in snapshot.value && Storable(cfg, id, snapshot.value[id]) :: ToFloat32(cfg.narrow, snapshot.value[id])
  }

  lemma SaveThenLoad(cfg: Config, m: Vectors)
    requires Sound(cfg, m)
    ensures Loaded(cfg, Some(m)) == m
  {
    var l := Loaded(cfg, Some(m));
    assert forall id :: id in l <==> id in m;
    assert forall id | id in m :: l[id] == m[id];
  }

  datatype Disk = Disk(snapshot: Option<Vectors>, wal: seq<Op>, synced: nat) {
    ghost predicate Valid() {
      synced <= |wal|
    }

    function Flush(ops: seq<Op>): Disk {
      this.(wal := wal + ops)
    }

    function Fsync(): Disk {
      this.(synced := |wal|)
    }

    function Save(m: Vectors): Disk {
      this.(snapshot := Some(m))
    }

    function Truncate(): Disk {
      this.(wal := [], synced := 0)
    }
  }

  /** What restore computes from the disk. */
  ghost function Recover(cfg: Config, disk: Disk): Vectors {
    ApplyAll(cfg, Loaded(cfg, disk.snapshot), disk.wal)
  }

  /** snapshotWALBackend: the files, and the count of operations not yet synced. */
  class SnapshotWALBackend {
    const syncEvery: nat
    var disk: Disk
    var pendingOps: nat

    ghost predicate Valid()
      reads this
    {
      syncEvery > 0 && disk.Valid()
    }

    constructor (syncEvery: int, disk: Disk)
      requires disk.Valid()
      ensures Valid() && this.disk == disk && pendingOps == 0 && this.syncEvery == if syncEvery <= 0 then 1 else syncEvery
    {
      this.syncEvery := if syncEvery <= 0 then 1 else syncEvery;
      this.disk := disk;
      pendingOps := 0;
    }

    method SaveSnapshot(vectors: seq<Vector>, ghost m: Vectors)
      requires Valid() && ListsAll(vectors, m)
      modifies this
      ensures Valid() && disk == old(disk).Save(m) && pendingOps == old(pendingOps)
    {
      var payload: Vectors := map[];
      for i := 0 to |vectors|
        invariant forall j | 0 <= j < i :: vectors[j].id in payload
        invariant forall id | id in payload :: id in m && payload[id] == m[id]
      {
        assert vectors[i] in vectors;
        payload := payload[vectors[i].id := vectors[i].values];
      }
      forall id | id in m
        ensures id in payload
      {
        assert id in ListedIds(vectors);
        var v :| v in vectors && v.id == id;
      }
      assert payload == m;
      disk := disk.Save(payload);
    }

    method AppendWALBatch(ops: seq<Op>)
      requires Valid()
      modifies this
      ensures Valid()
      ensures disk == if ops != [] && old(pendingOps) + |ops| >= syncEvery then old(disk).Flush(ops).Fsync() else old(disk).Flush(ops)
      ensures pendingOps == if ops != [] && old(pendingOps) + |ops| >= syncEvery then 0 else old(pendingOps) + |ops|
    {
      if |ops| == 0 {
        assert disk.wal + ops == disk.wal;
        return;
      }
      disk := disk.Flush(ops);
      pendingOps := pendingOps + |ops|;
      if pendingOps < syncEvery {
        return;
      }
      disk := disk.Fsync();
      pendingOps := 0;
    }

    method TruncateWAL()
      requires Valid()
      modifies this
      ensures Valid() && disk == old(disk).Truncate() && pendingOps == 0
    {
      disk := disk.Truncate();
      pendingOps := 0;
    }

    method Sync()
      requires Valid()
      modifies this
      ensures Valid() && pendingOps == 0 && disk == if old(pendingOps) == 0 then old(disk) else old(disk).Fsync()
    {
      if pendingOps == 0 {
        return;
      }
      disk := disk.Fsync();
      pendingOps := 0;
    }
  }
}
