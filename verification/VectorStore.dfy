/** The in-memory vector store and its ordered ID index (internal/core/vector_store.go). */
module VectorStores {
  import opened Distance
  import opened OrderedIds

  datatype Vector = Vector(id: Id, values: Vec)

  /** The map after a batch of upserts; a later entry for the same id wins. */
  ghost function Upserted(m: Vectors, narrow: Narrowing, batch: seq<Vector>): Vectors {
    if batch == [] then m
    else
      var n := |batch| - 1;
      Upserted(m, narrow, batch[..n])[batch[n].id := ToFloat32(narrow, batch[n].values)]
  }

  /** The last entry for an id wins, in stored precision, and other ids keep their vectors. */
  lemma {:induction false} LastOfBatchWins(m: Vectors, narrow: Narrowing, batch: seq<Vector>, id: Id, k: nat)
    requires k <= |batch| && (k < |batch| ==> batch[k].id == id)
    requires forall j | k < j < |batch| :: batch[j].id != id
    requires k == |batch| ==> forall j | 0 <= j < |batch| :: batch[j].id != id
    ensures id in Upserted(m, narrow, batch) <==> k < |batch| || id in m
    ensures k == |batch| && id in m ==> Upserted(m, narrow, batch)[id] == m[id]
    ensures k < |batch| ==> |Upserted(m, narrow, batch)[id]| == |batch[k].values|
    ensures k < |batch| ==> forall i | 0 <= i < |batch[k].values| :: Upserted(m, narrow, batch)[id][i] == narrow(batch[k].values[i])
  {
    var n := |batch| - 1;
    if 0 <= n && k != n {
      LastOfBatchWins(m, narrow, batch[..n], id, if k > n then n else k);
    }
  }

  /** Every stored vector is already in stored precision. */
  ghost predicate IsNarrowed(m: Vectors, narrow: Narrowing) {
    forall id | id in m :: ToFloat32(narrow, m[id]) == m[id]
  }

  /** `list` holds every vector of m once. */
  ghost predicate ListsAll(list: seq<Vector>, m: Vectors) {
    && (forall i, j | 0 <= i < j < |list| :: list[i].id != list[j].id)
    && (forall v | v in list :: v.id in m && m[v.id] == v.values)
    && m.Keys == ListedIds(list)
  }

  ghost function ListedIds(list: seq<Vector>): set<Id> {
    set v | v in list :: v.id
  }

  /** All vectors of a map, in whatever order Go ranges over it. */
  method ListOf(m: Vectors) returns (list: seq<Vector>)
    ensures ListsAll(list, m)
  {
    list := [];
    var rest := m.Keys;
    while rest != {}
      invariant rest <= m.Keys && ListedIds(list) == m.Keys - rest
      invariant forall i, j | 0 <= i < j < |list| :: list[i].id != list[j].id
      invariant forall v | v in list :: v.id in m && m[v.id] == v.values
      decreases rest
    {
      var id :| id in rest;
      assert forall i | 0 <= i < |list| :: list[i] in list && list[i].id in ListedIds(list);
      assert ListedIds(list + [Vector(id, m[id])]) == ListedIds(list) + {id};
      list := list + [Vector(id, m[id])];
      rest := rest - {id};
    }
  }

  class MemoryVectorStore {
    const narrow: Narrowing
    const ids: OrderedIDIndex
    var vectors: Vectors

    ghost predicate Valid()
      reads this, ids
    {
      ids.Valid() && ids.Ids() == vectors.Keys && IsNarrowed(vectors, narrow)
    }

    constructor (narrow: Narrowing)
      ensures Valid() && vectors == map[] && this.narrow == narrow && fresh(ids)
    {
      this.narrow := narrow;
      vectors := map[];
      ids := new OrderedIDIndex();
    }

    method UpsertOne(vec: Vector)
      requires Valid()
      modifies this, ids
      ensures Valid() && vectors == old(vectors)[vec.id := ToFloat32(narrow, vec.values)]
    {
      NarrowTwice(narrow, vec.values);
      vectors := vectors[vec.id := ToFloat32(narrow, vec.values)];
      ids.Upsert(vec.id);
    }

    method UpsertVectors(batch: seq<Vector>)
      requires Valid()
      modifies this, ids
      ensures Valid() && vectors == Upserted(old(vectors), narrow, batch)
    {
      for i := 0 to |batch|
        invariant Valid() && vectors == Upserted(old(vectors), narrow, batch[..i])
      {
        assert batch[..i + 1][..i] == batch[..i];
        UpsertOne(batch[i]);
      }
      assert batch[..|batch|] == batch;
    }

    method GetVector(id: Id) returns (r: Option<Vector>)
      requires Valid()
      ensures r == if id in vectors then Some(Vector(id, vectors[id])) else None
    {
      r := if id in vectors then Some(Vector(id, vectors[id])) else None;
    }

    method DeleteVector(id: Id) returns (found: bool)
      requires Valid()
      modifies this, ids
      ensures Valid() && found == (id in old(vectors)) && vectors == old(vectors) - {id}
    {
      found := id in vectors;
      if !found {
        assert vectors - {id} == vectors;
        return;
      }
      vectors := vectors - {id};
      ids.Delete(id);
    }

    method PageVectorIDs(after: Id, limit: int) returns (out: seq<Id>)
      requires Valid()
      ensures IsPage(vectors.Keys, after, AtLeastZero(limit), out)
    {
      out := ids.PageAfter(after, limit);
    }
  }
}
