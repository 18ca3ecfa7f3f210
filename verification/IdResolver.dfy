/** The stable internal ids that the ANN graph uses (internal/core/id_resolver.go). */
module IdResolvers {
  import opened Distance

  /** Names and numbers are mutually inverse, and no number beyond the last one is in use. */
  ghost predicate Inverse(idToInternal: map<Id, int>, internalToID: map<int, Id>, nextInternal: int) {
    && (forall id | id in idToInternal :: idToInternal[id] in internalToID && internalToID[idToInternal[id]] == id && idToInternal[id] <= nextInternal)
    && (forall k | k in internalToID :: internalToID[k] in idToInternal && idToInternal[internalToID[k]] == k)
  }

  class IdResolver {
    var idToInternal: map<Id, int>
    var internalToID: map<int, Id>
    var nextInternal: int

    ghost predicate Valid()
      reads this
    {
      Inverse(idToInternal, internalToID, nextInternal)
    }

    constructor ()
      ensures Valid() && idToInternal == map[] && internalToID == map[]
    {
      idToInternal, internalToID, nextInternal := map[], map[], 0;
    }

    /** The number of an id; a new id gets a number that was never used before. */
    method Assign(id: Id) returns (k: int)
      requires Valid()
      modifies this
      ensures Valid() && nextInternal >= old(nextInternal)
      ensures idToInternal == old(idToInternal)[id := k] && internalToID == old(internalToID)[k := id]
      ensures if id in old(idToInternal) then k == old(idToInternal)[id] else k > old(nextInternal) && k !in old(internalToID)
    {
      if id in idToInternal {
        return idToInternal[id];
      }
      nextInternal := nextInternal + 1;
      k := nextInternal;
      idToInternal := idToInternal[id := k];
      internalToID := internalToID[k := id];
    }

    method Lookup(k: int) returns (id: Option<Id>)
      requires Valid()
      ensures id.Some? <==> k in internalToID
      ensures id.Some? ==> id.value in idToInternal && idToInternal[id.value] == k
    {
      id := if k in internalToID then Some(internalToID[k]) else None;
    }

    method Remove(id: Id)
      requires Valid()
      modifies this
      ensures Valid() && nextInternal == old(nextInternal) && idToInternal == old(idToInternal) - {id}
      ensures internalToID == if id in old(idToInternal) then old(internalToID) - {old(idToInternal)[id]} else old(internalToID)
    {
      if id !in idToInternal {
        assert idToInternal - {id} == idToInternal;
        return;
      }
      internalToID := internalToID - {idToInternal[id]};
      idToInternal := idToInternal - {id};
    }
  }
}
