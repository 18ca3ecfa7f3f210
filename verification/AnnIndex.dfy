/**
  The ANN index object (internal/index/ann/ann_index.go): nodes are added and tombstoned,
  never removed, and every mutation keeps the whole index well formed.
 */
module AnnIndexes {
  import opened Ordering
  import opened Distance
  import opened SearchWorkspaces
  import opened AnnSearch
  import opened AnnGraph

  datatype AnnError = ErrInvalidK | ErrInvalidVectorDim

  type Found = Scored<int>

  /** What a search of the graph found, what it visited, and what was picked from it. */
  datatype GraphTrace = GraphTrace(found: seq<Pair>, seen: seq<Pair>, picks: seq<Pair>)

  /** External ids and slots are mutually inverse. */
  ghost predicate Mapped(nodes: seq<Node>, idToSlot: map<int, nat>) {
    && (forall v | 0 <= v < |nodes| :: nodes[v].id in idToSlot && idToSlot[nodes[v].id] == v)
    && (forall id | id in idToSlot :: idToSlot[id] < |nodes| && nodes[idToSlot[id]].id == id)
  }

  ghost predicate IndexOk(nodes: seq<Node>, idToSlot: map<int, nat>, deleted: seq<bool>, deletedCount: nat, m: nat, dim: nat) {
    && WellLinked(nodes, m) && SameDim(nodes, dim) && Mapped(nodes, idToSlot)
    && |deleted| == |nodes| && deletedCount == multiset(deleted)[true]
    && (dim == 0 <==> nodes == [])
  }

  /** The vectors that are not tombstoned, by external id. */
  ghost function LiveVectors(nodes: seq<Node>, idToSlot: map<int, nat>, deleted: seq<bool>): map<int, Vec>
    requires Mapped(nodes, idToSlot) && |deleted| == |nodes|
  {
    map id | id in idToSlot && !deleted[idToSlot[id]] :: nodes[idToSlot[id]].vector
  }

  function LiveOnly(deleted: seq<bool>, candidates: seq<Pair>): (r: seq<Pair>)
    ensures forall p :: p in r <==> p in candidates && !(p.id < |deleted| && deleted[p.id])
    ensures multiset(r) <= multiset(candidates)
  {
    if candidates == [] then []
    else
      var n := |candidates| - 1;
      var rest := LiveOnly(deleted, candidates[..n]);
      assert candidates == candidates[..n] + [candidates[n]];
      if candidates[n].id < |deleted| && deleted[candidates[n].id] then rest else rest + [candidates[n]]
  }

  lemma {:induction false} NothingDeleted(deleted: seq<bool>, candidates: seq<Pair>)
    requires multiset(deleted)[true] == 0
    ensures LiveOnly(deleted, candidates) == candidates
  {
    if candidates != [] {
      var n := |candidates| - 1;
      NothingDeleted(deleted, candidates[..n]);
      assert candidates[n].id < |deleted| ==> deleted[candidates[n].id] in multiset(deleted);
    }
  }

  method LiveCandidates(deleted: seq<bool>, deletedCount: nat, candidates: seq<Pair>) returns (out: seq<Pair>)
    requires deletedCount == multiset(deleted)[true]
    ensures out == LiveOnly(deleted, candidates)
  {
    if deletedCount == 0 {
      NothingDeleted(deleted, candidates);
      return candidates;
    }
    out := [];
    for i := 0 to |candidates|
      invariant out == LiveOnly(deleted, candidates[..i])
    {
      assert candidates[..i + 1][..i] == candidates[..i];
      if candidates[i].id < |deleted| && deleted[candidates[i].id] {
        continue;
      }
      out := out + [candidates[i]];
    }
    assert candidates[..|candidates|] == candidates;
  }

  /** A sorted list of at most k distinct live ids with their true distances. */
  ghost predicate TrueAnswer(live: map<int, Vec>, query: Vec, k: nat, results: seq<Found>) {
    && Sorted(Closer, results) && |results| <= k
    && (forall i, j | 0 <= i < j < |results| :: results[i].id != results[j].id)
    && forall i | 0 <= i < |results| :: IsTrue(live, query, results[i])
  }

  ghost predicate IsTrue(live: map<int, Vec>, query: Vec, r: Found) {
    r.id in live && |query| <= |live[r.id]| && r.distance == SquaredDistance(query, live[r.id])
  }

  function External(nodes: seq<Node>, picks: seq<Pair>): (r: seq<Found>)
    requires forall p | p in picks :: p.id < |nodes|
    ensures |r| == |picks| && forall i | 0 <= i < |r| :: r[i] == Scored(nodes[picks[i].id].id, picks[i].distance)
  {
    seq(|picks|, i requires 0 <= i < |picks| => assert picks[i] in picks; Scored(nodes[picks[i].id].id, picks[i].distance))
  }

  /** `picks` are k of the closest live nodes among those a search visiting `seen` found. */
  ghost predicate PickedFrom(nodes: seq<Node>, deleted: seq<bool>, entry: nat, ef: nat, query: Vec, k: nat, found: seq<Pair>, seen: seq<Pair>, picks: seq<Pair>) {
    Answer(nodes, entry, ef, query, found, seen) && Nearest(LiveOnly(deleted, found), k, picks)
  }

  lemma PicksAreLive(nodes: seq<Node>, deleted: seq<bool>, entry: nat, ef: nat, query: Vec, k: nat, found: seq<Pair>, seen: seq<Pair>, picks: seq<Pair>)
    requires ef > 0 && |deleted| == |nodes|
    requires PickedFrom(nodes, deleted, entry, ef, query, k, found, seen, picks)
    ensures DistinctSlots(picks) && |picks| <= k
    ensures forall p | p in picks :: IsScore(nodes, query, p) && !deleted[p.id]
  {
    AnswerIsDistinct(nodes, entry, ef, query, found, seen);
    DistinctInMultiset(LiveOnly(deleted, found), found);
    DistinctInMultiset(picks, LiveOnly(deleted, found));
    assert |multiset(picks)| == |picks|;
    forall p | p in picks
      ensures IsScore(nodes, query, p) && !deleted[p.id]
    {
      assert p in multiset(picks);
      assert p in multiset(LiveOnly(deleted, found));
    }
  }

  lemma PicksAreTrue(nodes: seq<Node>, idToSlot: map<int, nat>, deleted: seq<bool>, entry: nat, ef: nat, query: Vec, k: nat,
                     found: seq<Pair>, seen: seq<Pair>, picks: seq<Pair>)
    requires ef > 0 && Mapped(nodes, idToSlot) && |deleted| == |nodes|
    requires PickedFrom(nodes, deleted, entry, ef, query, k, found, seen, picks)
    ensures forall p | p in picks :: p.id < |nodes|
    ensures TrueAnswer(LiveVectors(nodes, idToSlot, deleted), query, k, External(nodes, picks))
  {
    PicksAreLive(nodes, deleted, entry, ef, query, k, found, seen, picks);
    forall p | p in picks
      ensures p.id < |nodes|
    {
      assert IsScore(nodes, query, p);
    }
    var live, results := LiveVectors(nodes, idToSlot, deleted), External(nodes, picks);
    forall i | 0 <= i < |results|
      ensures IsTrue(live, query, results[i])
    {
      assert picks[i] in picks && IsScore(nodes, query, picks[i]);
      assert idToSlot[nodes[picks[i].id].id] == picks[i].id;
    }
    forall i, j | 0 <= i < j < |results|
      ensures results[i].id != results[j].id && Closer(results[i], results[j])
    {
      assert picks[i] in picks && picks[j] in picks;
      assert Closer(picks[i], picks[j]);
    }
  }

  function Appended(nodes: seq<Node>, id: int, vector: Vec): (r: seq<Node>)
    ensures |r| == |nodes| + 1
  {
    nodes + [Node(|nodes|, id, vector, [])]
  }

  /**
    A node has been added: the first one stands alone, and any other is linked, both ways, to the m
    closest nodes that a search of width ef finds from the entrypoint; no other link changes.
   */
  ghost predicate Inserted(nodes0: seq<Node>, entry: nat, ef: nat, m: nat, id: int, v: Vec, nodes: seq<Node>, t: GraphTrace) {
    var grown := Appended(nodes0, id, v);
    if nodes0 == [] then nodes == grown
    else Answer(grown, entry, ef, v, t.found, t.seen) && Nearest(t.found, m, t.picks) && Linked(grown, nodes, SlotsOf(t.picks), m)
  }

  lemma AppendedIsLive(nodes: seq<Node>, idToSlot: map<int, nat>, deleted: seq<bool>, id: int, vector: Vec)
    requires Mapped(nodes, idToSlot) && |deleted| == |nodes| && id !in idToSlot
    ensures Mapped(Appended(nodes, id, vector), idToSlot[id := |nodes|])
    ensures LiveVectors(Appended(nodes, id, vector), idToSlot[id := |nodes|], deleted + [false])
      == LiveVectors(nodes, idToSlot, deleted)[id := vector]
  {
    var a := LiveVectors(Appended(nodes, id, vector), idToSlot[id := |nodes|], deleted + [false]);
    var b := LiveVectors(nodes, idToSlot, deleted)[id := vector];
    assert forall x :: x in a <==> x in b;
    assert forall x | x in b :: a[x] == b[x];
  }

  lemma AppendedIsUnlinked(nodes: seq<Node>, deleted: seq<bool>, id: int, vector: Vec, m: nat, dim: nat)
    requires WellLinked(nodes, m) && SameDim(nodes, dim) && |vector| == dim
    ensures JustAppended(Appended(nodes, id, vector), m, dim)
    ensures multiset(deleted + [false])[true] == multiset(deleted)[true]
  {
    assert Appended(nodes, id, vector)[..|nodes|] == nodes;
  }

  lemma LinksAreNotVisible(nodes0: seq<Node>, nodes: seq<Node>, idToSlot: map<int, nat>, deleted: seq<bool>)
    requires Mapped(nodes0, idToSlot) && |deleted| == |nodes0| && SameNodes(nodes0, nodes)
    ensures Mapped(nodes, idToSlot)
    ensures LiveVectors(nodes, idToSlot, deleted) == LiveVectors(nodes0, idToSlot, deleted)
  {
    forall v | 0 <= v < |nodes|
      ensures nodes[v].id == nodes0[v].id && nodes[v].vector == nodes0[v].vector
    {
      assert nodes[v] == nodes0[v].(neighbors := nodes[v].neighbors);
    }
    var a, b := LiveVectors(nodes, idToSlot, deleted), LiveVectors(nodes0, idToSlot, deleted);
    assert forall x :: x in a <==> x in b;
    assert forall x | x in b :: a[x] == b[x];
  }

  lemma TombstoneHides(nodes: seq<Node>, idToSlot: map<int, nat>, deleted: seq<bool>, id: int)
    requires Mapped(nodes, idToSlot) && |deleted| == |nodes| && id in idToSlot
    ensures LiveVectors(nodes, idToSlot, deleted[idToSlot[id] := true]) == LiveVectors(nodes, idToSlot, deleted) - {id}
  {
    var a, b := LiveVectors(nodes, idToSlot, deleted[idToSlot[id] := true]), LiveVectors(nodes, idToSlot, deleted) - {id};
    assert forall x :: x in a <==> x in b;
    assert forall x | x in b :: a[x] == b[x];
  }

  /** Another vector for one node, under the links that it has. */
  ghost function WithVector(nodes: seq<Node>, slot: nat, vector: Vec): seq<Node>
    requires slot < |nodes|
  {
    nodes[slot := nodes[slot].(vector := vector)]
  }

  lemma ReplacedIsLive(nodes: seq<Node>, idToSlot: map<int, nat>, deleted: seq<bool>, id: int, vector: Vec, m: nat)
    requires Mapped(nodes, idToSlot) && |deleted| == |nodes| && id in idToSlot && WellLinked(nodes, m)
    ensures var slot := idToSlot[id]; var nodes' := nodes[slot := nodes[slot].(vector := vector)];
      && Mapped(nodes', idToSlot) && WellLinked(nodes', m)
      && LiveVectors(nodes', idToSlot, deleted[slot := false]) == LiveVectors(nodes, idToSlot, deleted)[id := vector]
  {
    var slot := idToSlot[id];
    var nodes' := nodes[slot := nodes[slot].(vector := vector)];
    forall v | 0 <= v < |nodes'|
      ensures nodes'[v].slot == v && LinksOk(nodes'[v], |nodes'|, m)
    {
      assert LinksOk(nodes[v], |nodes|, m);
    }
    var a, b := LiveVectors(nodes', idToSlot, deleted[slot := false]), LiveVectors(nodes, idToSlot, deleted)[id := vector];
    assert forall x :: x in a <==> x in b;
    assert forall x | x in b :: a[x] == b[x];
  }

  lemma WellLinkedIsNavigable(nodes: seq<Node>, m: nat, dim: nat)
    requires WellLinked(nodes, m) && SameDim(nodes, dim)
    ensures Navigable(nodes, dim)
  {
    forall i | 0 <= i < |nodes|
      ensures |nodes[i].vector| == dim && forall n | n in nodes[i].neighbors :: n < |nodes|
    {
      assert LinksOk(nodes[i], |nodes|, m);
    }
  }

  class AnnIndex {
    const m: nat
    const efConstruction: nat
    const efSearch: nat
    const narrow: Narrowing
    var nodes: seq<Node>
    var idToSlot: map<int, nat>
    var deleted: seq<bool>
    var deletedCount: nat
    var entrypoint: nat
    var hasEntrypoint: bool
    var dim: nat
    /** Some workspace already used by this index. */
    var pool: SearchWorkspace

    ghost predicate Valid()
      reads this, pool, pool.visitedMarks
    {
      && m > 0 && efConstruction > 0 && efSearch > 0
      && IndexOk(nodes, idToSlot, deleted, deletedCount, m, dim)
      && (hasEntrypoint <==> nodes != []) && (hasEntrypoint ==> entrypoint < |nodes|)
      && pool.Valid() && pool.length <= |nodes|
    }

    ghost function Live(): map<int, Vec>
      reads this
      requires Mapped(nodes, idToSlot) && |deleted| == |nodes|
    {
      LiveVectors(nodes, idToSlot, deleted)
    }

    /** The objects an index owns are the ones it had, or new ones. */
    twostate predicate OwnsAsBefore()
      reads this, pool
    {
      (pool == old(pool) || fresh(pool)) && (pool.visitedMarks == old(pool.visitedMarks) || fresh(pool.visitedMarks))
    }

    constructor (m: int, efConstruction: int, efSearch: int, narrow: Narrowing)
      ensures Valid() && Live() == map[] && dim == 0 && deletedCount == 0 && nodes == []
      ensures this.m == (if m <= 0 then 16 else m) && this.efConstruction == if efConstruction <= 0 then 64 else efConstruction
      ensures this.efSearch == if efSearch <= 0 then 64 else efSearch
      ensures this.narrow == narrow && fresh(pool) && fresh(pool.visitedMarks)
    {
      this.m := if m <= 0 then 16 else m;
      this.efConstruction := if efConstruction <= 0 then 64 else efConstruction;
      this.efSearch := if efSearch <= 0 then 64 else efSearch;
      this.narrow := narrow;
      nodes, idToSlot, deleted, deletedCount := [], map[], [], 0;
      entrypoint, hasEntrypoint, dim := 0, false, 0;
      pool := new SearchWorkspace();
    }

    /** sync.Pool.Get: a workspace used before, or a new one. */
    method GetWorkspace()
      requires Valid()
      modifies this`pool
      ensures Valid() && (pool == old(pool) || (fresh(pool) && fresh(pool.visitedMarks)))
    {
      if * {
        pool := new SearchWorkspace();
      }
    }

    method ReplaceVector(id: int, vector: Vec)
      requires Valid() && id in idToSlot && |vector| == dim
      modifies this
      ensures Valid() && dim == old(dim) && pool == old(pool) && pool.visitedMarks == old(pool.visitedMarks)
      ensures Live() == old(Live())[id := vector] && deletedCount <= old(deletedCount)
      ensures nodes == WithVector(old(nodes), old(idToSlot)[id], vector)
      ensures idToSlot == old(idToSlot) && entrypoint == old(entrypoint)
    {
      var slot := idToSlot[id];
      ReplacedIsLive(nodes, idToSlot, deleted, id, vector, m);
      nodes := nodes[slot := nodes[slot].(vector := vector)];
      if deleted[slot] {
        deleted := deleted[slot := false];
        deletedCount := deletedCount - 1;
      }
    }

    /** The id map and the tombstones know of the next node already, but the graph does not. */
    ghost predicate Registered(id: int, vector: Vec)
      reads this
    {
      var grown := Appended(nodes, id, vector);
      && m > 0 && efConstruction > 0 && efSearch > 0 && dim > 0
      && JustAppended(grown, m, dim) && Mapped(grown, idToSlot)
      && |deleted| == |grown| && deletedCount == multiset(deleted)[true]
      && hasEntrypoint && entrypoint < |nodes|
    }

    /** Adds that node and links it. */
    method Connect(id: int, vector: Vec) returns (ghost t: GraphTrace)
      requires Registered(id, vector) && pool.Valid() && pool.length <= |nodes|
      modifies this`nodes, pool, pool.visitedMarks
      ensures Valid() && (pool.visitedMarks == old(pool.visitedMarks) || fresh(pool.visitedMarks))
      ensures |nodes| == old(|nodes|) + 1 && Live() == LiveVectors(Appended(old(nodes), id, vector), idToSlot, deleted)
      ensures Inserted(old(nodes), entrypoint, efConstruction, m, id, vector, nodes, t)
    {
      ghost var found, seen, picks;
      var nodes0 := Appended(nodes, id, vector);
      nodes, found, seen, picks := ConnectLast(nodes0, entrypoint, efConstruction, m, pool);
      t := GraphTrace(found, seen, picks);
      LinksAreNotVisible(nodes0, nodes, idToSlot, deleted);
    }

    /** One node in twenty becomes the entrypoint. */
    method MoveEntrypoint(slot: nat)
      modifies this`entrypoint
      ensures entrypoint == old(entrypoint) || entrypoint == slot
    {
      var roll: nat := *;
      if roll % 100 < 5 {
        entrypoint := slot;
      }
    }

    method AppendFirst(id: int, vector: Vec)
      requires Valid() && |vector| > 0 && !hasEntrypoint
      modifies this
      ensures Valid() && dim == |vector| && pool == old(pool) && pool.visitedMarks == old(pool.visitedMarks)
      ensures Live() == old(Live())[id := vector] && deletedCount == old(deletedCount)
      ensures old(nodes) == [] && nodes == Appended([], id, vector) && entrypoint == 0
    {
      AppendedIsLive(nodes, idToSlot, deleted, id, vector);
      dim := |vector|;
      nodes, idToSlot, deleted := Appended(nodes, id, vector), idToSlot[id := |nodes|], deleted + [false];
      entrypoint, hasEntrypoint := 0, true;
    }

    method Register(id: int, slot: nat)
      modifies this`idToSlot, this`deleted
      ensures idToSlot == old(idToSlot)[id := slot] && deleted == old(deleted) + [false]
    {
      idToSlot := idToSlot[id := slot];
      deleted := deleted + [false];
    }

    method AppendLinked(id: int, vector: Vec) returns (ghost t: GraphTrace)
      requires Valid() && id !in idToSlot && |vector| == dim && hasEntrypoint
      modifies this`nodes, this`idToSlot, this`deleted, pool, pool.visitedMarks
      ensures Valid() && (pool.visitedMarks == old(pool.visitedMarks) || fresh(pool.visitedMarks))
      ensures Live() == old(Live())[id := vector]
      ensures Inserted(old(nodes), entrypoint, efConstruction, m, id, vector, nodes, t) && |nodes| == old(|nodes|) + 1
    {
      AppendedIsLive(nodes, idToSlot, deleted, id, vector);
      AppendedIsUnlinked(nodes, deleted, id, vector, m, dim);
      Register(id, |nodes|);
      t := Connect(id, vector);
    }

    method AppendNext(id: int, vector: Vec) returns (ghost t: GraphTrace)
      requires Valid() && id !in idToSlot && |vector| == dim && hasEntrypoint
      modifies this, pool, pool.visitedMarks
      ensures Valid() && dim == old(dim)
      ensures pool == old(pool) && (pool.visitedMarks == old(pool.visitedMarks) || fresh(pool.visitedMarks))
      ensures Live() == old(Live())[id := vector] && deletedCount == old(deletedCount)
      ensures Inserted(old(nodes), old(entrypoint), efConstruction, m, id, vector, nodes, t)
      ensures entrypoint == old(entrypoint) || entrypoint == old(|nodes|)
    {
      var slot := |nodes|;
      t := AppendLinked(id, vector);
      MoveEntrypoint(slot);
    }

    /** A known id only gets another vector; a new one is linked into the graph, and may become its entrypoint. */
    method AddVector(id: int, values: Vec) returns (err: Option<AnnError>, ghost t: GraphTrace)
      requires Valid()
      modifies this, pool, pool.visitedMarks
      ensures Valid() && OwnsAsBefore()
      ensures err.Some? <==> |values| == 0 || (old(dim) != 0 && |values| != old(dim))
      ensures err.Some? ==> Live() == old(Live()) && dim == old(dim) && nodes == old(nodes) && entrypoint == old(entrypoint)
      ensures deletedCount <= old(deletedCount)
      ensures err.None? ==> Live() == old(Live())[id := ToFloat32(narrow, values)] && dim == |values|
      ensures err.None? && id in old(idToSlot) ==>
                nodes == WithVector(old(nodes), old(idToSlot)[id], ToFloat32(narrow, values)) && entrypoint == old(entrypoint)
      ensures err.None? && id !in old(idToSlot) ==>
                && Inserted(old(nodes), old(entrypoint), efConstruction, m, id, ToFloat32(narrow, values), nodes, t)
                && (if old(nodes) == [] then entrypoint == 0 else entrypoint == old(entrypoint) || entrypoint == old(|nodes|))
    {
      t := GraphTrace([], [], []);
      if |values| == 0 || (dim != 0 && |values| != dim) {
        return Some(ErrInvalidVectorDim), t;
      }
      var vecCopy := ToFloat32(narrow, values);
      if id in idToSlot {
        ReplaceVector(id, vecCopy);
      } else if !hasEntrypoint {
        AppendFirst(id, vecCopy);
      } else {
        GetWorkspace();
        t := AppendNext(id, vecCopy);
      }
      err := None;
    }

    method DeleteVector(id: int)
      requires Valid()
      modifies this
      ensures Valid() && dim == old(dim) && pool == old(pool) && pool.visitedMarks == old(pool.visitedMarks)
      ensures Live() == old(Live()) - {id} && nodes == old(nodes) && idToSlot == old(idToSlot) && entrypoint == old(entrypoint)
    {
      if id !in idToSlot || deleted[idToSlot[id]] {
        assert Live() - {id} == Live();
        return;
      }
      var slot := idToSlot[id];
      TombstoneHides(nodes, idToSlot, deleted, id);
      deleted := deleted[slot := true];
      deletedCount := deletedCount + 1;
    }

    method SearchCandidates(query: Vec) returns (candidates: seq<Pair>, ghost seen: seq<Pair>)
      requires Valid() && |query| == dim > 0
      modifies this, pool, pool.visitedMarks
      ensures Valid() && OwnsAsBefore()
      ensures nodes == old(nodes) && deleted == old(deleted) && idToSlot == old(idToSlot) && dim == old(dim) && entrypoint == old(entrypoint)
      ensures Answer(nodes, entrypoint, efSearch, query, candidates, seen)
    {
      GetWorkspace();
      pool.Reset(|nodes|);
      WellLinkedIsNavigable(nodes, m, dim);
      candidates, seen := Search(nodes, entrypoint, efSearch, query, pool);
    }

    /** The search that backs every query; `picks` are the results as slots. */
    method SearchWithDistances(query: Vec, k: int)
      returns (err: Option<AnnError>, results: seq<Found>, ghost found: seq<Pair>, ghost seen: seq<Pair>, ghost picks: seq<Pair>)
      requires Valid()
      modifies this, pool, pool.visitedMarks
      ensures Valid() && OwnsAsBefore()
      ensures Live() == old(Live()) && dim == old(dim) && nodes == old(nodes) && deleted == old(deleted) && entrypoint == old(entrypoint)
      ensures err == if k <= 0 then Some(ErrInvalidK) else if |query| == 0 || |query| != dim then Some(ErrInvalidVectorDim) else None
      ensures err.None? ==> TrueAnswer(Live(), ToFloat32(narrow, query), k, results)
      ensures err.None? ==> PickedFrom(nodes, deleted, entrypoint, efSearch, ToFloat32(narrow, query), k, found, seen, picks)
      ensures err.None? ==> (forall p | p in picks :: p.id < |nodes|) && results == External(nodes, picks)
    {
      results, found, seen, picks := [], [], [], [];
      if k <= 0 {
        return Some(ErrInvalidK), [], [], [], [];
      }
      if |query| == 0 || |query| != dim {
        return Some(ErrInvalidVectorDim), [], [], [], [];
      }
      var query32 := ToFloat32(narrow, query);
      var candidates;
      candidates, seen := SearchCandidates(query32);
      found := candidates;
      var live := LiveCandidates(deleted, deletedCount, candidates);
      var nearest := NearestPairs(live, k);
      picks := nearest;
      PicksAreTrue(nodes, idToSlot, deleted, entrypoint, efSearch, query32, k, found, seen, picks);
      results := External(nodes, nearest);
      err := None;
    }
  }
}
