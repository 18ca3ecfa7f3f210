/**
  Best-first search over a neighbour graph (internal/index/ann/ann_index.go): what it visits,
  what it returns, and why it stops.
 */
module AnnSearch {
  import opened Ordering
  import opened BinaryHeap
  import opened Distance
  import opened SearchWorkspaces

  datatype Node = Node(slot: nat, id: int, vector: Vec, neighbors: seq<nat>)

  type Pair = Scored<nat>

  /** Neighbour slots exist and every vector has the query's dimension. */
  ghost predicate Navigable(nodes: seq<Node>, dim: nat) {
    forall i | 0 <= i < |nodes| :: |nodes[i].vector| == dim && forall n | n in nodes[i].neighbors :: n < |nodes|
  }

  ghost predicate IsPath(nodes: seq<Node>, path: seq<nat>) {
    && |path| > 0
    && (forall i | 0 <= i < |path| :: path[i] < |nodes|)
    && forall i | 0 <= i < |path| - 1 :: path[i + 1] in nodes[path[i]].neighbors
  }

  ghost predicate Reaches(nodes: seq<Node>, from: nat, to: nat) {
    exists path :: IsPath(nodes, path) && path[0] == from && path[|path| - 1] == to
  }

  ghost function Reachable(nodes: seq<Node>, from: nat): set<nat> {
    set v: nat | v < |nodes| && Reaches(nodes, from, v)
  }

  lemma ReachesItself(nodes: seq<Node>, v: nat)
    requires v < |nodes|
    ensures Reaches(nodes, v, v)
  {
    assert IsPath(nodes, [v]);
  }

  lemma ReachesFurther(nodes: seq<Node>, from: nat, via: nat, to: nat)
    requires via < |nodes| && to < |nodes| && Reaches(nodes, from, via) && to in nodes[via].neighbors
    ensures Reaches(nodes, from, to)
  {
    var path :| IsPath(nodes, path) && path[0] == from && path[|path| - 1] == via;
    var longer := path + [to];
    assert forall i | 0 <= i < |longer| - 1 :: longer[i + 1] in nodes[longer[i]].neighbors;
    assert IsPath(nodes, longer) && longer[0] == from && longer[|longer| - 1] == to;
  }

  /** A set that holds `from` and is closed under neighbours holds everything reachable. */
  lemma {:induction false} ClosedSetHoldsPath(nodes: seq<Node>, closed: set<nat>, path: seq<nat>)
    requires IsPath(nodes, path) && path[0] in closed
    requires forall v, n | v in closed && v < |nodes| && n in nodes[v].neighbors :: n in closed
    ensures path[|path| - 1] in closed
  {
    if |path| > 1 {
      assert path[0 + 1] in nodes[path[0]].neighbors;
      var rest := path[1..];
      assert forall i | 0 <= i < |rest| - 1 :: rest[i + 1] in nodes[rest[i]].neighbors by {
        forall i | 0 <= i < |rest| - 1
          ensures rest[i + 1] in nodes[rest[i]].neighbors
        {
          assert path[(i + 1) + 1] in nodes[path[i + 1]].neighbors;
        }
      }
      ClosedSetHoldsPath(nodes, closed, rest);
    }
  }

  /** The slot of a node with its true distance to the query. */
  ghost predicate IsScore(nodes: seq<Node>, query: Vec, p: Pair) {
    p.id < |nodes| && |query| <= |nodes[p.id].vector| && p.distance == SquaredDistance(query, nodes[p.id].vector)
  }

  ghost function Slots(pairs: seq<Pair>): set<nat> {
    set p | p in pairs :: p.id
  }

  ghost predicate DistinctSlots(pairs: seq<Pair>) {
    forall i, j | 0 <= i < j < |pairs| :: pairs[i].id != pairs[j].id
  }

  /** Everything visited so far, each slot once, all of it reachable. */
  ghost predicate Explored(nodes: seq<Node>, entry: nat, query: Vec, seen: seq<Pair>) {
    && DistinctSlots(seen)
    && entry in Slots(seen)
    && forall p | p in seen :: IsScore(nodes, query, p) && Reaches(nodes, entry, p.id)
  }

  /** minQ is the frontier; maxQ holds the ef closest of what was seen. */
  ghost predicate Queues(ef: nat, seen: seq<Pair>, minQ: seq<Pair>, maxQ: seq<Pair>) {
    && Heap(Closer, minQ) && multiset(minQ) <= multiset(seen)
    && Heap(Reverse(Closer), maxQ) && Smallest(Closer, multiset(seen), ef, multiset(maxQ))
  }

  ghost predicate Closed(nodes: seq<Node>, done: set<nat>, visited: set<nat>) {
    forall v, n | v in done && v < |nodes| && n in nodes[v].neighbors :: n in visited
  }

  ghost predicate Covered(minQ: seq<Pair>, maxQ: seq<Pair>, done: set<nat>) {
    forall p | p in maxQ :: p in minQ || p.id in done
  }

  lemma SeenFitsGraph(nodes: seq<Node>, seen: seq<Pair>)
    requires DistinctSlots(seen) && forall p | p in seen :: p.id < |nodes|
    ensures |seen| <= |nodes| && |Slots(seen)| == |seen|
  {
    SlotsCount(seen);
    SubsetCount(Slots(seen), Range(|nodes|));
  }

  lemma {:induction false} SlotsCount(pairs: seq<Pair>)
    requires DistinctSlots(pairs)
    ensures |Slots(pairs)| == |pairs|
  {
    if pairs != [] {
      var n := |pairs| - 1;
      SlotsCount(pairs[..n]);
      assert pairs == pairs[..n] + [pairs[n]];
      assert Slots(pairs) == Slots(pairs[..n]) + {pairs[n].id};
    }
  }

  ghost function Range(n: nat): (r: set<nat>)
    ensures |r| == n && forall i: nat :: i in r <==> i < n
  {
    if n == 0 then {} else Range(n - 1) + {n - 1}
  }

  lemma SubsetCount<T>(a: set<T>, b: set<T>)
    requires a <= b
    ensures |a| <= |b| && (|a| == |b| ==> a == b)
  {
    assert b == a + (b - a);
  }

  lemma SeeOneMore(nodes: seq<Node>, entry: nat, query: Vec, seen: seq<Pair>, from: nat, p: Pair)
    requires Explored(nodes, entry, query, seen) && IsScore(nodes, query, p)
    requires from < |nodes| && Reaches(nodes, entry, from) && p.id in nodes[from].neighbors
    requires p.id !in Slots(seen)
    ensures Explored(nodes, entry, query, seen + [p]) && Slots(seen + [p]) == Slots(seen) + {p.id}
  {
    ReachesFurther(nodes, entry, from, p.id);
    forall q | q in seen
      ensures q.id in Slots(seen)
    {
    }
  }

  /** One unvisited neighbour: queue it unless ef closer nodes are already known. */
  method Consider(ef: nat, p: Pair, minQ0: seq<Pair>, maxQ0: seq<Pair>, ghost seen: seq<Pair>, ghost done: set<nat>)
    returns (minQ: seq<Pair>, maxQ: seq<Pair>)
    requires ef > 0 && Queues(ef, seen, minQ0, maxQ0) && Covered(minQ0, maxQ0, done)
    ensures Queues(ef, seen + [p], minQ, maxQ) && Covered(minQ, maxQ, done)
  {
    CloserIsPreorder<nat>();
    minQ := minQ0;
    var kept;
    maxQ, kept := Offer(Closer, ef, maxQ0, p, multiset(seen));
    assert multiset(seen + [p]) == multiset(seen) + multiset{p};
    if kept {
      minQ := Push(Closer, minQ0, p);
    }
    forall q | q in maxQ
      ensures q in minQ || q.id in done
    {
      assert q in multiset(maxQ);
      if q != p {
        assert q in multiset(maxQ0);
        assert q in minQ0 ==> q in multiset(minQ);
      } else if kept {
        assert p in multiset(minQ);
      } else {
        assert q in maxQ0;
      }
    }
  }

  /** What holds between any two steps of the search. */
  ghost predicate Searching(nodes: seq<Node>, entry: nat, ef: nat, query: Vec, seen: seq<Pair>,
                            minQ: seq<Pair>, maxQ: seq<Pair>, done: set<nat>, visited: set<nat>) {
    && Explored(nodes, entry, query, seen)
    && Queues(ef, seen, minQ, maxQ)
    && Covered(minQ, maxQ, done)
    && visited == Slots(seen)
  }

  method Visit(nodes: seq<Node>, ghost entry: nat, ef: nat, query: Vec, ws: SearchWorkspace, ghost from: nat, nid: nat,
               minQ0: seq<Pair>, maxQ0: seq<Pair>, ghost seen0: seq<Pair>, ghost done: set<nat>)
    returns (minQ: seq<Pair>, maxQ: seq<Pair>, ghost seen: seq<Pair>)
    requires ws.Valid() && ws.length == |nodes| && nid < |nodes| && nid !in ws.Visited()
    requires ef > 0 && |nodes[nid].vector| == |query|
    requires Searching(nodes, entry, ef, query, seen0, minQ0, maxQ0, done, ws.Visited())
    requires from < |nodes| && Reaches(nodes, entry, from) && nid in nodes[from].neighbors
    modifies ws.visitedMarks
    ensures ws.Valid() && ws.Visited() == old(ws.Visited()) + {nid} && |seen| == |seen0| + 1
    ensures Searching(nodes, entry, ef, query, seen, minQ, maxQ, done, ws.Visited())
  {
    ws.MarkVisited(nid);
    var dist := SquaredEuclideanDistance32SameLen(query, nodes[nid].vector);
    var p := Scored(nid, dist);
    SeeOneMore(nodes, entry, query, seen0, from, p);
    minQ, maxQ := Consider(ef, p, minQ0, maxQ0, seen0, done);
    seen := seen0 + [p];
  }

  method Expand(nodes: seq<Node>, ghost entry: nat, ef: nat, query: Vec, ws: SearchWorkspace, current: nat,
                minQ0: seq<Pair>, maxQ0: seq<Pair>, ghost seen0: seq<Pair>, ghost done: set<nat>)
    returns (minQ: seq<Pair>, maxQ: seq<Pair>, ghost seen: seq<Pair>)
    requires ef > 0 && Navigable(nodes, |query|) && ws.Valid() && ws.length == |nodes|
    requires current < |nodes| && Reaches(nodes, entry, current)
    requires Searching(nodes, entry, ef, query, seen0, minQ0, maxQ0, done, ws.Visited())
    modifies ws.visitedMarks
    ensures ws.Valid() && old(ws.Visited()) <= ws.Visited()
    ensures Searching(nodes, entry, ef, query, seen, minQ, maxQ, done, ws.Visited())
    ensures forall n | n in nodes[current].neighbors :: n in ws.Visited()
    ensures (seen == seen0 && minQ == minQ0) || |seen0| < |seen|
  {
    minQ, maxQ, seen := minQ0, maxQ0, seen0;
    var neighbors := nodes[current].neighbors;
    for i := 0 to |neighbors|
      invariant Searching(nodes, entry, ef, query, seen, minQ, maxQ, done, ws.Visited())
      invariant ws.Valid() && old(ws.Visited()) <= ws.Visited()
      invariant forall j | 0 <= j < i :: neighbors[j] in ws.Visited()
      invariant (seen == seen0 && minQ == minQ0) || |seen0| < |seen|
    {
      var nid := neighbors[i];
      assert nid in nodes[current].neighbors;
      if ws.IsVisited(nid) {
        continue;
      }
      minQ, maxQ, seen := Visit(nodes, entry, ef, query, ws, current, nid, minQ, maxQ, seen, done);
    }
  }

  lemma PopKeepsSearching(nodes: seq<Node>, entry: nat, ef: nat, query: Vec, seen: seq<Pair>, minQ0: seq<Pair>,
                          current: Pair, minQ: seq<Pair>, maxQ: seq<Pair>, done: set<nat>, visited: set<nat>)
    requires Searching(nodes, entry, ef, query, seen, minQ0, maxQ, done, visited)
    requires multiset(minQ0) == multiset(minQ) + multiset{current} && Heap(Closer, minQ)
    ensures Searching(nodes, entry, ef, query, seen, minQ, maxQ, done + {current.id}, visited)
    ensures current in seen && current.id < |nodes| && Reaches(nodes, entry, current.id)
  {
    assert current in multiset(minQ0);
    assert current in multiset(seen);
    forall p | p in maxQ
      ensures p in minQ || p.id in done + {current.id}
    {
      if p in minQ0 && p != current {
        assert p in multiset(minQ0);
        assert p in multiset(minQ);
      }
    }
  }

  /** When the closest frontier node is farther than everything kept, every kept node has been expanded. */
  lemma BreakIsSafe(minQ0: seq<Pair>, current: Pair, minQ: seq<Pair>, maxQ: seq<Pair>, done: set<nat>)
    requires Covered(minQ0, maxQ, done) && Heap(Reverse(Closer), maxQ) && |maxQ| > 0
    requires multiset(minQ0) == multiset(minQ) + multiset{current}
    requires forall p | p in multiset(minQ) :: Closer(current, p)
    requires current.distance > maxQ[0].distance
    ensures Covered([], maxQ, done)
  {
    CloserIsPreorder<nat>();
    RootIsLeastOfAll(Reverse(Closer), maxQ);
    forall p | p in maxQ
      ensures p.id in done
    {
      assert p in multiset(maxQ);
      assert Reverse(Closer)(maxQ[0], p);
      if p in multiset(minQ0) {
        assert false;
      }
    }
  }

  ghost predicate NoCloser(nodes: seq<Node>, query: Vec, answers: multiset<Pair>, n: nat) {
    n < |nodes| && |query| <= |nodes[n].vector| && forall q | q in answers :: q.distance <= SquaredDistance(query, nodes[n].vector)
  }

  /** Node n is an answer, or ef answers at least as close were found. */
  ghost predicate Answered(nodes: seq<Node>, ef: nat, query: Vec, answers: multiset<Pair>, n: nat) {
    (exists q :: q in answers && q.id == n) || (|answers| == ef && NoCloser(nodes, query, answers, n))
  }

  ghost predicate ClosedAnswer(nodes: seq<Node>, ef: nat, query: Vec, answers: multiset<Pair>) {
    forall p, n | p in answers && p.id < |nodes| && n in nodes[p.id].neighbors :: Answered(nodes, ef, query, answers, n)
  }

  /** The whole contract of a search that visited `seen`. */
  ghost predicate Answer(nodes: seq<Node>, entry: nat, ef: nat, query: Vec, out: seq<Pair>, seen: seq<Pair>) {
    && Explored(nodes, entry, query, seen)
    && Sorted(Closer, out)
    && Smallest(Closer, multiset(seen), ef, multiset(out))
    && ClosedAnswer(nodes, ef, query, multiset(out))
  }

  lemma SeenIsAnswered(nodes: seq<Node>, entry: nat, ef: nat, query: Vec, seen: seq<Pair>, maxQ: multiset<Pair>, n: nat)
    requires Explored(nodes, entry, query, seen) && Smallest(Closer, multiset(seen), ef, maxQ)
    requires n in Slots(seen)
    ensures Answered(nodes, ef, query, maxQ, n)
  {
    var q :| q in seen && q.id == n;
    if q !in maxQ {
      assert IsScore(nodes, query, q);
      assert q in multiset(seen) - maxQ;
      assert |multiset(seen) - maxQ| == |multiset(seen)| - |maxQ|;
      assert NoCloser(nodes, query, maxQ, n);
    }
  }

  lemma FinishedIsClosed(nodes: seq<Node>, entry: nat, ef: nat, query: Vec, seen: seq<Pair>, maxQ: seq<Pair>, done: set<nat>)
    requires Explored(nodes, entry, query, seen) && Smallest(Closer, multiset(seen), ef, multiset(maxQ))
    requires Closed(nodes, done, Slots(seen)) && Covered([], maxQ, done)
    ensures ClosedAnswer(nodes, ef, query, multiset(maxQ))
  {
    forall p, n | p in multiset(maxQ) && p.id < |nodes| && n in nodes[p.id].neighbors
      ensures Answered(nodes, ef, query, multiset(maxQ), n)
    {
      assert p in maxQ;
      SeenIsAnswered(nodes, entry, ef, query, seen, multiset(maxQ), n);
    }
  }

  method DrainCandidates(maxQ0: seq<Pair>) returns (out: seq<Pair>)
    requires Heap(Reverse(Closer), maxQ0)
    ensures Sorted(Closer, out) && multiset(out) == multiset(maxQ0)
  {
    CloserIsPreorder<nat>();
    ReverseIsPreorder<Pair>(Closer);
    var maxQ := maxQ0;
    out := [];
    while |maxQ| > 0
      invariant Heap(Reverse(Closer), maxQ) && Sorted(Closer, out)
      invariant multiset(maxQ) + multiset(out) == multiset(maxQ0)
      invariant |out| > 0 ==> forall x | x in multiset(maxQ) :: Closer(x, out[0])
      decreases |maxQ|
    {
      var top, rest := Pop(Reverse(Closer), maxQ);
      forall x | x in multiset(rest)
        ensures Closer(x, top)
      {
        assert Reverse(Closer)(top, x);
      }
      out, maxQ := [top] + out, rest;
    }
  }

  method PopClosest(minQ0: seq<Pair>) returns (current: Pair, minQ: seq<Pair>)
    requires Heap(Closer, minQ0) && |minQ0| > 0
    ensures forall p | p in multiset(minQ) :: Closer(current, p)
    ensures Heap(Closer, minQ) && multiset(minQ0) == multiset(minQ) + multiset{current} && |minQ| == |minQ0| - 1
  {
    CloserIsPreorder<nat>();
    current, minQ := Pop(Closer, minQ0);
  }

  method Step(nodes: seq<Node>, ghost entry: nat, ef: nat, query: Vec, ws: SearchWorkspace,
              minQ0: seq<Pair>, maxQ0: seq<Pair>, ghost seen0: seq<Pair>, ghost done0: set<nat>)
    returns (minQ: seq<Pair>, maxQ: seq<Pair>, ghost seen: seq<Pair>, ghost done: set<nat>)
    requires ef > 0 && |minQ0| > 0 && Navigable(nodes, |query|) && ws.Valid() && ws.length == |nodes|
    requires Searching(nodes, entry, ef, query, seen0, minQ0, maxQ0, done0, ws.Visited())
    requires Closed(nodes, done0, ws.Visited())
    modifies ws.visitedMarks
    ensures ws.Valid() && Closed(nodes, done, ws.Visited())
    ensures minQ != [] ==> Searching(nodes, entry, ef, query, seen, minQ, maxQ, done, ws.Visited())
    ensures minQ == [] ==> Finished(nodes, entry, ef, query, seen, maxQ, done, ws.Visited())
    ensures |seen| > |seen0| || (|seen| == |seen0| && |minQ| < |minQ0|)
  {
    var current, rest := PopClosest(minQ0);
    if |maxQ0| >= ef && current.distance > maxQ0[0].distance {
      BreakIsSafe(minQ0, current, rest, maxQ0, done0);
      return [], maxQ0, seen0, done0;
    }
    PopKeepsSearching(nodes, entry, ef, query, seen0, minQ0, current, rest, maxQ0, done0, ws.Visited());
    done := done0 + {current.id};
    minQ, maxQ, seen := Expand(nodes, entry, ef, query, ws, current.id, rest, maxQ0, seen0, done);
  }

  /** The search is over: every kept node has been expanded. */
  ghost predicate Finished(nodes: seq<Node>, entry: nat, ef: nat, query: Vec, seen: seq<Pair>,
                           maxQ: seq<Pair>, done: set<nat>, visited: set<nat>) {
    && Explored(nodes, entry, query, seen) && visited == Slots(seen)
    && Heap(Reverse(Closer), maxQ) && Smallest(Closer, multiset(seen), ef, multiset(maxQ))
    && Covered([], maxQ, done)
  }

  lemma StartIsSearching(nodes: seq<Node>, entry: nat, ef: nat, query: Vec, start: Pair)
    requires ef > 0 && IsScore(nodes, query, start) && start.id == entry
    ensures Searching(nodes, entry, ef, query, [start], [start], [start], {}, {entry})
  {
    ReachesItself(nodes, entry);
    assert multiset([start]) == multiset{start};
  }

  /** Each round either sees a new node or shrinks the frontier, and no node is seen twice. */
  method Search(nodes: seq<Node>, entry: nat, ef: nat, query: Vec, ws: SearchWorkspace) returns (out: seq<Pair>, ghost seen: seq<Pair>)
    requires ef > 0 && entry < |nodes| && Navigable(nodes, |query|)
    requires ws.Valid() && ws.length == |nodes| && ws.Visited() == {}
    modifies ws.visitedMarks
    ensures Answer(nodes, entry, ef, query, out, seen)
    ensures ws.Valid() && ws.Visited() == Slots(seen)
  {
    var startDist := SquaredEuclideanDistance32SameLen(query, nodes[entry].vector);
    var start := Scored(entry, startDist);
    StartIsSearching(nodes, entry, ef, query, start);
    seen := [start];
    var minQ, maxQ := [start], [start];
    ws.MarkVisited(entry);
    ghost var done: set<nat> := {};
    while |minQ| > 0
      invariant ws.Valid() && Closed(nodes, done, ws.Visited())
      invariant minQ != [] ==> Searching(nodes, entry, ef, query, seen, minQ, maxQ, done, ws.Visited())
      invariant minQ == [] ==> Finished(nodes, entry, ef, query, seen, maxQ, done, ws.Visited())
      decreases |nodes| - |seen|, |minQ|
    {
      SeenFitsGraph(nodes, seen);
      minQ, maxQ, seen, done := Step(nodes, entry, ef, query, ws, minQ, maxQ, seen, done);
    }
    FinishedIsClosed(nodes, entry, ef, query, seen, maxQ, done);
    out := DrainCandidates(maxQ);
  }

  /** A search answer names each slot at most once, and all of its slots are reachable. */
  lemma AnswerIsDistinct(nodes: seq<Node>, entry: nat, ef: nat, query: Vec, out: seq<Pair>, seen: seq<Pair>)
    requires ef > 0 && Answer(nodes, entry, ef, query, out, seen)
    ensures DistinctSlots(out) && Slots(out) <= Reachable(nodes, entry)
    ensures forall p | p in out :: IsScore(nodes, query, p)
    ensures |out| == Min(ef, |seen|) && |out| > 0
  {
    forall p | p in out
      ensures p in seen
    {
      assert p in multiset(out);
      assert p in multiset(seen);
    }
    assert |multiset(out)| == |out| && |multiset(seen)| == |seen|;
    DistinctInMultiset(out, seen);
  }

  lemma DistinctInMultiset(out: seq<Pair>, seen: seq<Pair>)
    requires multiset(out) <= multiset(seen) && DistinctSlots(seen)
    ensures DistinctSlots(out)
  {
    forall i, j | 0 <= i < j < |out|
      ensures out[i].id != out[j].id
    {
      assert out[i] in multiset(out) && out[j] in multiset(out);
      assert out[i] in multiset(seen) && out[j] in multiset(seen);
      if out[i] == out[j] {
        RepeatIsCounted(out, i, j);
        AppearsOnce(seen, out[i]);
      }
    }
  }

  lemma {:induction false} AppearsOnce(seen: seq<Pair>, p: Pair)
    requires DistinctSlots(seen)
    ensures multiset(seen)[p] <= 1
  {
    if seen != [] {
      var n := |seen| - 1;
      AppearsOnce(seen[..n], p);
      assert seen == seen[..n] + [seen[n]];
      assert p == seen[n] ==> p !in seen[..n];
    }
  }

  lemma RoomLeftIsClosed(nodes: seq<Node>, entry: nat, ef: nat, query: Vec, out: seq<Pair>, seen: seq<Pair>)
    requires Answer(nodes, entry, ef, query, out, seen) && |out| < ef
    ensures entry in Slots(out)
    ensures forall v, n | v in Slots(out) && v < |nodes| && n in nodes[v].neighbors :: n in Slots(out)
  {
    assert |multiset(out)| == |out|;
    assert |multiset(seen) - multiset(out)| == 0;
    assert multiset(seen) == multiset(out);
    var e :| e in seen && e.id == entry;
    assert e in multiset(seen);
    forall v, n | v in Slots(out) && v < |nodes| && n in nodes[v].neighbors
      ensures n in Slots(out)
    {
      var p :| p in out && p.id == v;
      assert p in multiset(out);
      assert Answered(nodes, ef, query, multiset(out), n);
      var q :| q in multiset(out) && q.id == n;
      assert q in out;
    }
  }

  /** With ef at least the number of reachable nodes, the answer is exactly the reachable nodes. */
  lemma WideSearchFindsAll(nodes: seq<Node>, entry: nat, ef: nat, query: Vec, out: seq<Pair>, seen: seq<Pair>)
    requires ef > 0 && Answer(nodes, entry, ef, query, out, seen) && ef >= |Reachable(nodes, entry)|
    ensures Slots(out) == Reachable(nodes, entry)
  {
    AnswerIsDistinct(nodes, entry, ef, query, out, seen);
    SlotsCount(out);
    SubsetCount(Slots(out), Reachable(nodes, entry));
    if |out| < ef {
      RoomLeftIsClosed(nodes, entry, ef, query, out, seen);
      forall v | v in Reachable(nodes, entry)
        ensures v in Slots(out)
      {
        var path :| IsPath(nodes, path) && path[0] == entry && path[|path| - 1] == v;
        ClosedSetHoldsPath(nodes, Slots(out), path);
      }
    }
  }
}
