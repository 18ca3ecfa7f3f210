/**
  Growing the neighbour graph: selecting the nearest candidates, linking a new node both
  ways, and pruning a node that has too many neighbours (internal/index/ann/ann_index.go).
 */
module AnnGraph {
  import opened Ordering
  import opened Distance
  import opened SearchWorkspaces
  import opened AnnSearch

  ghost predicate Selected(s: seq<Pair>, k: nat) {
    k <= |s| && forall i, j | 0 <= i < k && i < j < |s| :: Closer(s[i], s[j])
  }

  method ClosestFrom(candidates: array<Pair>, i: nat) returns (best: nat)
    requires i < candidates.Length
    ensures i <= best < candidates.Length
    ensures forall l | i <= l < candidates.Length :: Closer(candidates[best], candidates[l])
  {
    best := i;
    for j := i + 1 to candidates.Length
      invariant i <= best < candidates.Length
      invariant forall l | i <= l < j :: Closer(candidates[best], candidates[l])
    {
      if candidates[j].distance < candidates[best].distance {
        best := j;
      }
    }
  }

  lemma SwapExtendsSelection(s: seq<Pair>, i: nat, best: nat, s': seq<Pair>)
    requires Selected(s, i) && i <= best < |s| == |s'|
    requires forall l | i <= l < |s| :: Closer(s[best], s[l])
    requires s' == s[i := s[best]][best := s[i]]
    ensures Selected(s', i + 1)
  {
    forall a, b | 0 <= a < i + 1 && a < b < |s'|
      ensures Closer(s'[a], s'[b])
    {
      var b' := if b == i then best else if b == best then i else b;
      assert s'[b] == s[b'];
    }
  }

  /** Partial selection sort, in place: the k closest come first, in order. */
  method SelectNearest(candidates: array<Pair>, k: nat)
    requires k <= candidates.Length
    modifies candidates
    ensures multiset(candidates[..]) == multiset(old(candidates[..]))
    ensures Selected(candidates[..], k)
  {
    for i := 0 to k
      invariant multiset(candidates[..]) == multiset(old(candidates[..]))
      invariant Selected(candidates[..], i)
    {
      ghost var s := candidates[..];
      var best := ClosestFrom(candidates, i);
      candidates[i], candidates[best] := candidates[best], candidates[i];
      assert candidates[..] == s[i := s[best]][best := s[i]];
      SwapExtendsSelection(s, i, best, candidates[..]);
    }
  }

  lemma HeadAndTail<T>(s: seq<T>, k: nat)
    requires k <= |s|
    ensures multiset(s[..k]) <= multiset(s) && multiset(s) - multiset(s[..k]) == multiset(s[k..])
  {
    assert s == s[..k] + s[k..];
  }

  lemma SelectedIsSmallest(s: seq<Pair>, k: nat)
    requires Selected(s, k)
    ensures Smallest(Closer, multiset(s), k, multiset(s[..k])) && Sorted(Closer, s[..k])
  {
    HeadAndTail(s, k);
    forall x, y | x in multiset(s[..k]) && y in multiset(s[k..])
      ensures Closer(x, y)
    {
      SelectedApart(s, k, x, y);
    }
    assert |multiset(s)| == |s|;
  }

  lemma SelectedApart(s: seq<Pair>, k: nat, x: Pair, y: Pair)
    requires Selected(s, k) && x in s[..k] && y in s[k..]
    ensures Closer(x, y)
  {
    var i :| 0 <= i < k && s[..k][i] == x;
    var j :| 0 <= j < |s| - k && s[k..][j] == y;
    assert Closer(s[i], s[k + j]);
  }

  function SlotsOf(pairs: seq<Pair>): (r: seq<nat>)
    ensures |r| == |pairs| && forall i | 0 <= i < |r| :: r[i] == pairs[i].id
  {
    seq(|pairs|, i requires 0 <= i < |pairs| => pairs[i].id)
  }

  /** `picks` are the at most k closest of `pairs`, closest first. */
  ghost predicate Nearest(pairs: seq<Pair>, k: nat, picks: seq<Pair>) {
    Smallest(Closer, multiset(pairs), k, multiset(picks)) && Sorted(Closer, picks)
  }

  method NearestPairs(pairs: seq<Pair>, k: nat) returns (picks: seq<Pair>)
    ensures Nearest(pairs, k, picks)
  {
    var limit := Min(k, |pairs|);
    var candidates := new Pair[|pairs|](i requires 0 <= i < |pairs| => pairs[i]);
    assert candidates[..] == pairs;
    SelectNearest(candidates, limit);
    SelectedIsSmallest(candidates[..], limit);
    picks := candidates[..limit];
    assert |multiset(pairs)| == |pairs|;
  }

  ghost predicate SameDim(nodes: seq<Node>, dim: nat) {
    forall i | 0 <= i < |nodes| :: |nodes[i].vector| == dim
  }

  ghost predicate IsNearer(nodes: seq<Node>, v: Vec, x: nat, y: nat) {
    && x < |nodes| && y < |nodes| && |v| <= |nodes[x].vector| && |v| <= |nodes[y].vector|
    && SquaredDistance(v, nodes[x].vector) <= SquaredDistance(v, nodes[y].vector)
  }

  /** `keep` is `all` when that has at most m slots, and otherwise m of its slots nearest to v. */
  ghost predicate KeepsNearest(nodes: seq<Node>, v: Vec, all: seq<nat>, keep: seq<nat>, m: nat) {
    && (|all| <= m ==> keep == all)
    && |keep| == Min(m, |all|) && NoDuplicates(keep)
    && (forall x | x in keep :: x in all)
    && forall x, y | x in keep && y in all && y !in keep :: IsNearer(nodes, v, x, y)
  }

  method Prune(nodes: seq<Node>, v: Vec, all: seq<nat>, m: nat) returns (keep: seq<nat>)
    requires SameDim(nodes, |v|) && NoDuplicates(all) && forall n | n in all :: n < |nodes|
    ensures KeepsNearest(nodes, v, all, keep, m)
  {
    if |all| <= m {
      return all;
    }
    var pairs: seq<Pair> := [];
    for i := 0 to |all|
      invariant |pairs| == i && forall j | 0 <= j < i :: pairs[j].id == all[j] && IsScore(nodes, v, pairs[j])
    {
      assert all[i] in all;
      var d := SquaredEuclideanDistance32SameLen(v, nodes[all[i]].vector);
      pairs := pairs + [Scored(all[i], d)];
    }
    var picks := NearestPairs(pairs, m);
    PicksKeepNearest(nodes, v, all, pairs, picks, m);
    keep := SlotsOf(picks);
  }

  lemma PicksKeepNearest(nodes: seq<Node>, v: Vec, all: seq<nat>, pairs: seq<Pair>, picks: seq<Pair>, m: nat)
    requires |all| > m && NoDuplicates(all) && Nearest(pairs, m, picks)
    requires |pairs| == |all| && forall j | 0 <= j < |all| :: pairs[j].id == all[j] && IsScore(nodes, v, pairs[j])
    ensures KeepsNearest(nodes, v, all, SlotsOf(picks), m)
  {
    var keep := SlotsOf(picks);
    DistinctInMultiset(picks, pairs);
    assert |multiset(picks)| == |picks| && |multiset(pairs)| == |pairs|;
    forall x | x in keep
      ensures x in all && exists p :: p in multiset(picks) && p.id == x && p in pairs
    {
      var i :| 0 <= i < |keep| && keep[i] == x;
      assert picks[i] in multiset(picks);
      assert picks[i] in multiset(pairs);
    }
    forall x, y | x in keep && y in all && y !in keep
      ensures IsNearer(nodes, v, x, y)
    {
      var p :| p in multiset(picks) && p.id == x && p in pairs;
      var j :| 0 <= j < |all| && all[j] == y;
      assert pairs[j] !in picks by {
        forall i | 0 <= i < |picks|
          ensures picks[i] != pairs[j]
        {
          assert keep[i] in keep;
        }
      }
      assert pairs[j] in multiset(pairs) - multiset(picks);
      assert Closer(p, pairs[j]);
    }
  }

  /** One node's links: existing slots other than itself, no repeats, at most m of them. */
  ghost predicate LinksOk(node: Node, count: nat, m: nat) {
    && NoDuplicates(node.neighbors)
    && (forall n | n in node.neighbors :: n < count && n != node.slot)
    && |node.neighbors| <= m
    && (count >= 2 ==> |node.neighbors| >= 1)
  }

  ghost predicate WellLinked(nodes: seq<Node>, m: nat) {
    forall v | 0 <= v < |nodes| :: nodes[v].slot == v && LinksOk(nodes[v], |nodes|, m)
  }

  function AddNeighbor(node: Node, id: nat): Node {
    if id == node.slot || id in node.neighbors then node else node.(neighbors := node.neighbors + [id])
  }

  /** Node v after being linked to `slot` and pruned. */
  ghost predicate Relinked(nodes0: seq<Node>, nodes: seq<Node>, v: nat, slot: nat, m: nat)
    requires v < |nodes0| == |nodes|
  {
    KeepsNearest(nodes0, nodes0[v].vector, nodes0[v].neighbors + [slot], nodes[v].neighbors, m)
  }

  /** Only links have changed. */
  ghost predicate SameNodes(nodes0: seq<Node>, nodes: seq<Node>) {
    && |nodes| == |nodes0|
    && forall v | 0 <= v < |nodes| :: nodes[v] == nodes0[v].(neighbors := nodes[v].neighbors)
  }

  /** The last node has been linked to `links` and back, and nothing else has changed. */
  ghost predicate Linked(nodes0: seq<Node>, nodes: seq<Node>, links: seq<nat>, m: nat) {
    && SameNodes(nodes0, nodes) && |nodes| > 0
    && nodes[|nodes| - 1].neighbors == links
    && forall v: nat | v < |nodes| - 1 ::
      if v in links then Relinked(nodes0, nodes, v, |nodes| - 1, m) else nodes[v] == nodes0[v]
  }

  /** A graph whose last node is new: it has no links yet and nothing links to it. */
  ghost predicate JustAppended(nodes: seq<Node>, m: nat, dim: nat) {
    && |nodes| > 0 && WellLinked(nodes[..|nodes| - 1], m) && SameDim(nodes, dim)
    && nodes[|nodes| - 1].slot == |nodes| - 1 && nodes[|nodes| - 1].neighbors == []
  }

  method LinkOne(nodes0: seq<Node>, nodes: seq<Node>, ghost links: seq<nat>, target: nat, m: nat, ghost dim: nat) returns (r: seq<Node>)
    requires JustAppended(nodes0, m, dim) && Linked(nodes0, nodes, links, m)
    requires target < |nodes| - 1 && target !in links
    ensures Linked(nodes0, r, links + [target], m)
  {
    var slot: nat := |nodes| - 1;
    var from := AddNeighbor(nodes[slot], target);
    var to := AddNeighbor(nodes[target], slot);
    assert LinksOk(nodes0[..slot][target], slot, m);
    assert nodes[target] == nodes0[target];
    assert to.neighbors == nodes0[target].neighbors + [slot];
    var keep := Prune(nodes0, to.vector, to.neighbors, m);
    r := nodes[slot := from][target := to.(neighbors := keep)];
    assert Relinked(nodes0, r, target, slot, m);
    forall v: nat | v < slot
      ensures if v in links + [target] then Relinked(nodes0, r, v, slot, m) else r[v] == nodes0[v]
    {
      if v != target {
        assert r[v] == nodes[v];
      }
    }
  }

  /** Linking keeps every graph invariant. */
  lemma LinkingKeepsGraph(nodes0: seq<Node>, nodes: seq<Node>, links: seq<nat>, m: nat, dim: nat)
    requires m > 0 && JustAppended(nodes0, m, dim) && Linked(nodes0, nodes, links, m)
    requires NoDuplicates(links) && |links| <= m && forall v | v in links :: v < |nodes| - 1
    requires |nodes| > 1 ==> |links| > 0
    ensures WellLinked(nodes, m) && SameDim(nodes, dim)
  {
    var n := |nodes| - 1;
    assert |links| > 0 ==> links[0] in links;
    forall v | 0 <= v < |nodes|
      ensures nodes[v].slot == v && LinksOk(nodes[v], |nodes|, m)
    {
      if v < n {
        assert LinksOk(nodes0[..n][v], n, m);
      }
    }
  }

  lemma NewNodeIsNotReached(nodes: seq<Node>, m: nat, dim: nat, entry: nat)
    requires JustAppended(nodes, m, dim) && entry < |nodes| - 1
    ensures Navigable(nodes, dim) && forall v | v in Reachable(nodes, entry) :: v < |nodes| - 1
  {
    var n := |nodes| - 1;
    forall v | 0 <= v < |nodes|
      ensures forall u | u in nodes[v].neighbors :: u < n
    {
      if v < n {
        assert LinksOk(nodes[..n][v], n, m);
      }
    }
    forall v | v in Reachable(nodes, entry)
      ensures v < n
    {
      var path :| IsPath(nodes, path) && path[0] == entry && path[|path| - 1] == v;
      ClosedSetHoldsPath(nodes, Range(n), path);
    }
  }

  method LinkAll(nodes0: seq<Node>, links: seq<nat>, m: nat, ghost dim: nat) returns (nodes: seq<Node>)
    requires m > 0 && JustAppended(nodes0, m, dim) && |nodes0| > 1
    requires NoDuplicates(links) && 0 < |links| <= m && forall v | v in links :: v < |nodes0| - 1
    ensures Linked(nodes0, nodes, links, m) && WellLinked(nodes, m) && SameDim(nodes, dim)
  {
    var slot: nat := |nodes0| - 1;
    nodes := nodes0;
    for i := 0 to |links|
      invariant Linked(nodes0, nodes, links[..i], m)
    {
      assert links[i] in links && links[..i + 1] == links[..i] + [links[i]];
      if links[i] != slot {
        nodes := LinkOne(nodes0, nodes, links[..i], links[i], m, dim);
      }
    }
    assert links[..|links|] == links;
    LinkingKeepsGraph(nodes0, nodes, links, m, dim);
    var keep := Prune(nodes, nodes[slot].vector, nodes[slot].neighbors, m);
    nodes := nodes[slot := nodes[slot].(neighbors := keep)];
  }

  /**
    The new last node is linked to the at most m closest nodes that a search of width
    efConstruction finds from the entrypoint.
   */
  method ConnectLast(nodes0: seq<Node>, entry: nat, efConstruction: nat, m: nat, ws: SearchWorkspace)
    returns (nodes: seq<Node>, ghost found: seq<Pair>, ghost seen: seq<Pair>, ghost picks: seq<Pair>)
    requires efConstruction > 0 && m > 0 && entry < |nodes0| - 1
    requires JustAppended(nodes0, m, |nodes0[|nodes0| - 1].vector|)
    requires ws.Valid() && ws.length <= |nodes0|
    modifies ws, ws.visitedMarks
    ensures ws.Valid() && ws.length == |nodes0|
    ensures ws.visitedMarks == old(ws.visitedMarks) || fresh(ws.visitedMarks)
    ensures Answer(nodes0, entry, efConstruction, nodes0[|nodes0| - 1].vector, found, seen)
    ensures Nearest(found, m, picks) && Linked(nodes0, nodes, SlotsOf(picks), m)
    ensures WellLinked(nodes, m) && SameDim(nodes, |nodes0[|nodes0| - 1].vector|)
  {
    var vector := nodes0[|nodes0| - 1].vector;
    var links;
    links, found, seen, picks := ChooseLinks(nodes0, entry, efConstruction, m, ws);
    nodes := LinkAll(nodes0, links, m, |vector|);
  }

  /** The slots of the m closest nodes that the search for the new node finds; the new node is not among them. */
  method ChooseLinks(nodes0: seq<Node>, entry: nat, efConstruction: nat, m: nat, ws: SearchWorkspace)
    returns (links: seq<nat>, ghost found: seq<Pair>, ghost seen: seq<Pair>, ghost picks: seq<Pair>)
    requires efConstruction > 0 && m > 0 && entry < |nodes0| - 1
    requires JustAppended(nodes0, m, |nodes0[|nodes0| - 1].vector|)
    requires ws.Valid() && ws.length <= |nodes0|
    modifies ws, ws.visitedMarks
    ensures ws.Valid() && ws.length == |nodes0|
    ensures ws.visitedMarks == old(ws.visitedMarks) || fresh(ws.visitedMarks)
    ensures Answer(nodes0, entry, efConstruction, nodes0[|nodes0| - 1].vector, found, seen)
    ensures Nearest(found, m, picks) && links == SlotsOf(picks)
    ensures NoDuplicates(links) && 0 < |links| <= m && forall v | v in links :: v < |nodes0| - 1
  {
    var vector := nodes0[|nodes0| - 1].vector;
    NewNodeIsNotReached(nodes0, m, |vector|, entry);
    ws.Reset(|nodes0|);
    var candidates;
    candidates, seen := Search(nodes0, entry, efConstruction, vector, ws);
    found := candidates;
    var chosen := NearestPairs(candidates, m);
    picks := chosen;
    PicksAreLinks(nodes0, entry, efConstruction, vector, found, seen, picks, m);
    links := SlotsOf(chosen);
  }

  lemma PicksAreLinks(nodes: seq<Node>, entry: nat, ef: nat, query: Vec, found: seq<Pair>, seen: seq<Pair>, picks: seq<Pair>, m: nat)
    requires m > 0 && ef > 0 && Answer(nodes, entry, ef, query, found, seen) && Nearest(found, m, picks)
    ensures NoDuplicates(SlotsOf(picks)) && 0 < |SlotsOf(picks)| <= m
    ensures forall v | v in SlotsOf(picks) :: v in Reachable(nodes, entry)
  {
    AnswerIsDistinct(nodes, entry, ef, query, found, seen);
    DistinctInMultiset(picks, found);
    assert |multiset(picks)| == |picks| && |multiset(found)| == |found|;
    forall v | v in SlotsOf(picks)
      ensures v in Slots(found)
    {
      var i :| 0 <= i < |picks| && SlotsOf(picks)[i] == v;
      assert picks[i] in multiset(picks);
      assert picks[i] in multiset(found);
    }
  }
}
