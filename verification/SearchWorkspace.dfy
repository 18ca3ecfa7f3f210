/**
  The visited marks of a graph search: an array stamped with the number of the search, so
  that starting a new search costs one increment (internal/index/ann/ann_index.go).
 */
module SearchWorkspaces {

  /** visitEpoch is a uint32. */
  const EPOCHS := 0x1_0000_0000

  class SearchWorkspace {
    var visitedMarks: array<nat>
    var length: nat
    var visitEpoch: nat

    ghost predicate Valid()
      reads this, visitedMarks
    {
      && length == visitedMarks.Length
      && visitEpoch < EPOCHS
      && forall i | 0 <= i < visitedMarks.Length :: visitedMarks[i] <= visitEpoch
    }

    ghost function Visited(): (r: set<nat>)
      reads this, visitedMarks
      requires length <= visitedMarks.Length
    {
      set i: nat | i < length && visitedMarks[i] == visitEpoch
    }

    constructor ()
      ensures Valid() && length == 0 && fresh(visitedMarks)
    {
      visitedMarks := new nat[0];
      length, visitEpoch := 0, 0;
    }

    /** Slots are never removed from an index, so its pooled workspaces only ever grow. */
    method Reset(nodes: nat)
      requires Valid() && length <= nodes
      modifies this, visitedMarks
      ensures Valid() && length == nodes && Visited() == {}
      ensures visitedMarks == old(visitedMarks) || fresh(visitedMarks)
    {
      if visitedMarks.Length < nodes {
        visitedMarks := new nat[nodes](_ => 0);
      }
      length := nodes;
      visitEpoch := (visitEpoch + 1) % EPOCHS;
      if visitEpoch == 0 {
        for i := 0 to length
          modifies visitedMarks
          invariant forall j | 0 <= j < i :: visitedMarks[j] == 0
        {
          visitedMarks[i] := 0;
        }
        visitEpoch := 1;
      }
    }

    predicate IsVisited(slot: nat)
      reads this, visitedMarks
      requires slot < length <= visitedMarks.Length
      ensures IsVisited(slot) <==> slot in Visited()
    {
      visitedMarks[slot] == visitEpoch
    }

    method MarkVisited(slot: nat)
      requires Valid() && slot < length
      modifies visitedMarks
      ensures Valid() && Visited() == old(Visited()) + {slot}
    {
      visitedMarks[slot] := visitEpoch;
    }
  }
}
