/** The exact index (internal/index/index.go). */
module ExactIndexes {
  import opened Distance
  import opened VectorStores

  class ExactIndex {
    const narrow: Narrowing
    var vectors: Vectors

    constructor (narrow: Narrowing)
      ensures vectors == map[] && this.narrow == narrow
    {
      this.narrow := narrow;
      vectors := map[];
    }

    /** Unlike the store, the index refuses an id that is already there. */
    method AddVector(vec: Vector) returns (present: bool)
      modifies this
      ensures present == (vec.id in old(vectors))
      ensures vectors == if present then old(vectors) else old(vectors)[vec.id := ToFloat32(narrow, vec.values)]
    {
      present := vec.id in vectors;
      if !present {
        vectors := vectors[vec.id := ToFloat32(narrow, vec.values)];
      }
    }

    method DeleteVector(id: Id) returns (found: bool)
      modifies this
      ensures found == (id in old(vectors)) && vectors == old(vectors) - {id}
    {
      found := id in vectors;
      vectors := vectors - {id};
    }
  }
}
