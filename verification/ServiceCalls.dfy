/**
  What one call of a service can log (internal/core/service.go): AddVectors logs new, distinct,
  well-formed ids of one dimension, and DeleteVector logs one stored id. So no log holds two
  upserts of an id without a delete between them.
 */
module ServiceCalls {
  import opened Distance
  import opened VectorStores
  import opened Wal
  import opened ServiceState

  ghost predicate IsCall(cfg: Config, m: Vectors, ops: seq<Op>) {
    IsDeletion(m, ops) || IsInsertion(cfg, m, ops)
  }

  ghost predicate IsDeletion(m: Vectors, ops: seq<Op>) {
    |ops| == 1 && ops[0].Delete? && ops[0].id in m && !IsBlank(ops[0].id)
  }

  ghost predicate IsInsertion(cfg: Config, m: Vectors, ops: seq<Op>) {
    && ops != [] && ops[0].Upsert? && SameLength(m, |ops[0].values|)
    && (forall i: nat :: Inserts(cfg, m, ops, i))
    && forall i: nat, j: nat :: AreDistinct(ops, i, j)
  }

  ghost predicate Inserts(cfg: Config, m: Vectors, ops: seq<Op>, i: nat)
    requires ops != [] && ops[0].Upsert?
  {
    i < |ops| ==>
      && ops[i].Upsert? && ops[i].id !in m
      && CheckVector(cfg, Vector(ops[i].id, ops[i].values)).None?
      && |ops[i].values| == |ops[0].values|
  }

  ghost predicate AreDistinct(ops: seq<Op>, i: nat, j: nat) {
    i < j < |ops| ==> ops[i].id != ops[j].id
  }

  ghost predicate AllUpserts(ops: seq<Op>) {
    forall i | 0 <= i < |ops| :: ops[i].Upsert?
  }

  ghost function VectorsOf(ops: seq<Op>): (r: seq<Vector>)
    requires AllUpserts(ops)
    ensures |r| == |ops| && forall i | 0 <= i < |r| :: r[i] == Vector(ops[i].id, ops[i].values)
  {
    seq(|ops|, i requires 0 <= i < |ops| => Vector(ops[i].id, ops[i].values))
  }

  /** What AddVectors accepts is such a call ... */
  lemma AcceptedIsCall(cfg: Config, m: Vectors, dim: nat, batch: seq<Vector>)
    requires batch != [] && Sound(cfg, m) && SameLength(m, dim)
    requires Insertable(cfg, m, batch) && OneDimension(dim, batch)
    ensures IsCall(cfg, m, UpsertOps(batch))
  {
    var ops := UpsertOps(batch);
    if dim == 0 {
      EmptyUnlessDim(cfg, m);
    }
    forall i: nat
      ensures Inserts(cfg, m, ops, i)
    {
      assert IsNew(cfg, m, batch, i);
    }
    forall i: nat, j: nat
      ensures AreDistinct(ops, i, j)
    {
      assert IsDistinct(batch, i, j);
    }
    assert IsInsertion(cfg, m, ops);
  }

  /** ... and a service over m accepts every such insertion: one that has no dimension yet, or that of its vectors. */
  lemma CallIsAccepted(cfg: Config, m: Vectors, dim: nat, ops: seq<Op>, faults: Faults)
    requires IsInsertion(cfg, m, ops) && SameLength(m, dim) && (dim == 0 || dim == |ops[0].values|)
    requires !faults.store && !faults.wal
    ensures AllUpserts(ops) && BatchRefusal(cfg, m, dim, VectorsOf(ops), faults).None? && UpsertOps(VectorsOf(ops)) == ops
  {
    forall i | 0 <= i < |ops|
      ensures ops[i].Upsert? && |ops[i].values| == |ops[0].values|
    {
      assert Inserts(cfg, m, ops, i);
    }
    var batch := VectorsOf(ops);
    forall i: nat
      ensures IsNew(cfg, m, batch, i)
    {
      assert Inserts(cfg, m, ops, i);
    }
    forall i: nat, j: nat
      ensures IsDistinct(batch, i, j)
    {
      assert AreDistinct(ops, i, j);
    }
    InsertableIsNotRefused(cfg, m, batch);
  }

  /** Every non-empty prefix of a call could itself be a call. */
  lemma PrefixIsCall(cfg: Config, m: Vectors, ops: seq<Op>, t: nat)
    requires IsCall(cfg, m, ops) && 0 < t <= |ops|
    ensures IsCall(cfg, m, ops[..t])
  {
    if IsInsertion(cfg, m, ops) {
      forall i: nat
        ensures Inserts(cfg, m, ops[..t], i)
      {
        assert Inserts(cfg, m, ops, i);
      }
      forall i: nat, j: nat
        ensures AreDistinct(ops[..t], i, j)
      {
        assert AreDistinct(ops, i, j);
      }
      assert IsInsertion(cfg, m, ops[..t]);
    } else {
      assert ops[..t] == ops;
    }
  }

  lemma {:induction false} InsertedIsThere(cfg: Config, m: Vectors, ops: seq<Op>, k: nat, j: nat)
    requires IsInsertion(cfg, m, ops) && j < k <= |ops|
    ensures ops[j].Upsert? && ops[j].id in ApplyAll(cfg, m, ops[..k])
    ensures ApplyAll(cfg, m, ops[..k])[ops[j].id] == ToFloat32(cfg.narrow, ops[j].values)
  {
    assert ops[..k][..k - 1] == ops[..k - 1];
    assert Inserts(cfg, m, ops, k - 1);
    if j < k - 1 {
      InsertedIsThere(cfg, m, ops, k - 1, j);
      assert AreDistinct(ops, j, k - 1);
    }
  }

  /** Replaying any part of one call over the map that has all of it changes nothing. */
  lemma {:induction false} ReplayPartOfCall(cfg: Config, m: Vectors, ops: seq<Op>, t: nat)
    requires IsCall(cfg, m, ops) && t <= |ops|
    ensures ApplyAll(cfg, ApplyAll(cfg, m, ops), ops[..t]) == ApplyAll(cfg, m, ops)
  {
    var all := ApplyAll(cfg, m, ops);
    if IsDeletion(m, ops) {
      assert t == 1 ==> ops[..t] == ops;
      if t == 1 {
        ReplayTwice(cfg, m, ops);
      }
    } else if t > 0 {
      ReplayPartOfCall(cfg, m, ops, t - 1);
      assert ops[..t][..t - 1] == ops[..t - 1] && ops[..|ops|] == ops;
      InsertedIsThere(cfg, m, ops, |ops|, t - 1);
      assert all[ops[t - 1].id := ToFloat32(cfg.narrow, ops[t - 1].values)] == all;
    }
  }
}
