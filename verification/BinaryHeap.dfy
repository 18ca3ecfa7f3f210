/**
  The array-backed binary heap. The repository writes it out four times, for min and max
  distances, for search results and (through container/heap) for strings; the code differs
  only in its comparison, so the comparison is a parameter here. The root is a least element
  of `leq`, so a max-heap is a heap under the reversed order.
 */
module BinaryHeap {
  import opened Ordering

  predicate Edge(parent: nat, child: nat) {
    child == 2 * parent + 1 || child == 2 * parent + 2
  }

  ghost predicate Heap<T>(leq: (T, T) -> bool, h: seq<T>) {
    forall i: nat, j: nat | j < |h| && Edge(i, j) :: leq(h[i], h[j])
  }

  /** The parent slot, with Go's truncating division: the root is its own parent. */
  function Parent(j: nat): (i: nat)
    ensures j > 0 ==> i < j && Edge(i, j)
    ensures j == 0 ==> i == 0
  {
    if j == 0 then 0 else (j - 1) / 2
  }

  lemma {:induction false} RootIsLeast<T(!new)>(leq: (T, T) -> bool, h: seq<T>, j: nat)
    requires TotalPreorder(leq) && Heap(leq, h) && j < |h|
    ensures leq(h[0], h[j])
  {
    if j > 0 {
      RootIsLeast(leq, h, Parent(j));
    }
  }

  lemma RootIsLeastOfAll<T(!new)>(leq: (T, T) -> bool, h: seq<T>)
    requires TotalPreorder(leq) && Heap(leq, h) && |h| > 0
    ensures h[0] in multiset(h)
    ensures forall x | x in multiset(h) :: leq(h[0], x)
  {
    forall x | x in multiset(h)
      ensures leq(h[0], x)
    {
      assert x in h;
      var j :| 0 <= j < |h| && h[j] == x;
      RootIsLeast(leq, h, j);
    }
  }

  /** Every edge is in order except the one above j, and j's children are below j's parent. */
  ghost predicate HeapExceptAbove<T>(leq: (T, T) -> bool, h: seq<T>, j: nat) {
    && (forall i: nat, k: nat | k < |h| && Edge(i, k) && k != j :: leq(h[i], h[k]))
    && (forall k: nat | k < |h| && Edge(j, k) && j > 0 :: leq(h[Parent(j)], h[k]))
  }

  /** Every edge is in order except those below i, and i's children are below i's parent. */
  ghost predicate HeapExceptBelow<T>(leq: (T, T) -> bool, h: seq<T>, i: nat) {
    && (forall p: nat, k: nat | k < |h| && Edge(p, k) && p != i :: leq(h[p], h[k]))
    && (forall k: nat | k < |h| && Edge(i, k) && i > 0 :: leq(h[Parent(i)], h[k]))
  }

  function Swap<T>(h: seq<T>, i: nat, j: nat): (r: seq<T>)
    requires i < |h| && j < |h|
    ensures |r| == |h| && multiset(r) == multiset(h)
    ensures r[i] == h[j] && r[j] == h[i]
    ensures forall k | 0 <= k < |h| && k != i && k != j :: r[k] == h[k]
  {
    h[i := h[j]][j := h[i]]
  }

  lemma SwapUpKeepsOrder<T(!new)>(leq: (T, T) -> bool, h: seq<T>, j: nat)
    requires TotalPreorder(leq) && 0 < j < |h| && HeapExceptAbove(leq, h, j)
    requires !leq(h[Parent(j)], h[j])
    ensures HeapExceptAbove(leq, Swap(h, Parent(j), j), Parent(j))
  {
  }

  lemma SwapDownKeepsOrder<T(!new)>(leq: (T, T) -> bool, h: seq<T>, i: nat, child: nat)
    requires TotalPreorder(leq) && i < child < |h| && HeapExceptBelow(leq, h, i)
    requires Edge(i, child) && leq(h[child], h[i])
    requires forall k: nat | k < |h| && Edge(i, k) :: leq(h[child], h[k])
    ensures HeapExceptBelow(leq, Swap(h, i, child), child)
  {
  }

  method SiftUp<T(!new)>(leq: (T, T) -> bool, h0: seq<T>, j0: nat) returns (h: seq<T>)
    requires TotalPreorder(leq) && j0 < |h0| && HeapExceptAbove(leq, h0, j0)
    ensures Heap(leq, h) && multiset(h) == multiset(h0) && |h| == |h0|
  {
    h := h0;
    var j: nat := j0;
    while true
      invariant j < |h| == |h0|
      invariant HeapExceptAbove(leq, h, j)
      invariant multiset(h) == multiset(h0)
      decreases j
    {
      var i := Parent(j);
      if i == j || leq(h[i], h[j]) {
        break;
      }
      SwapUpKeepsOrder(leq, h, j);
      h := Swap(h, i, j);
      j := i;
    }
  }

  method SiftDown<T(!new)>(leq: (T, T) -> bool, h0: seq<T>, i0: nat) returns (h: seq<T>)
    requires TotalPreorder(leq) && HeapExceptBelow(leq, h0, i0)
    ensures Heap(leq, h) && multiset(h) == multiset(h0) && |h| == |h0|
  {
    h := h0;
    var i: nat := i0;
    while true
      invariant |h| == |h0|
      invariant HeapExceptBelow(leq, h, i)
      invariant multiset(h) == multiset(h0)
      decreases |h| - i
    {
      var left := 2 * i + 1;
      if left >= |h| {
        break;
      }
      var child := left;
      var right := left + 1;
      if right < |h| && !leq(h[left], h[right]) {
        child := right;
      }
      if leq(h[i], h[child]) {
        break;
      }
      SwapDownKeepsOrder(leq, h, i, child);
      h := Swap(h, i, child);
      i := child;
    }
  }

  method Push<T(!new)>(leq: (T, T) -> bool, h0: seq<T>, x: T) returns (h: seq<T>)
    requires TotalPreorder(leq) && Heap(leq, h0)
    ensures Heap(leq, h) && multiset(h) == multiset(h0) + multiset{x} && |h| == |h0| + 1
  {
    assert HeapExceptAbove(leq, h0 + [x], |h0|);
    h := SiftUp(leq, h0 + [x], |h0|);
  }

  method Pop<T(!new)>(leq: (T, T) -> bool, h0: seq<T>) returns (top: T, h: seq<T>)
    requires TotalPreorder(leq) && Heap(leq, h0) && |h0| > 0
    ensures top == h0[0] && forall x | x in multiset(h) :: leq(top, x)
    ensures Heap(leq, h) && multiset(h0) == multiset(h) + multiset{top} && |h| == |h0| - 1
  {
    var n := |h0| - 1;
    var swapped := Swap(h0, 0, n);
    RootIsLeastOfAll(leq, h0);
    assert swapped == swapped[..n] + [h0[0]];
    assert HeapExceptBelow(leq, swapped[..n], 0);
    h := SiftDown(leq, swapped[..n], 0);
    top := swapped[n];
  }

  method ReplaceTop<T(!new)>(leq: (T, T) -> bool, h0: seq<T>, x: T) returns (h: seq<T>)
    requires TotalPreorder(leq) && Heap(leq, h0) && |h0| > 0
    ensures Heap(leq, h) && multiset(h) == multiset(h0) - multiset{h0[0]} + multiset{x} && |h| == |h0|
  {
    assert HeapExceptBelow(leq, h0[0 := x], 0);
    h := SiftDown(leq, h0[0 := x], 0);
  }

  /**
    The shape shared by topKAccumulator.Add, the inner loop of graph search and page
    selection: keep a heap whose root is the worst kept element, grow it to `limit`, then
    replace the root by anything strictly better. `leq` is the order of preference.
   */
  method Offer<T(!new)>(leq: (T, T) -> bool, limit: nat, h0: seq<T>, x: T, ghost seen: multiset<T>)
    returns (h: seq<T>, kept: bool)
    requires TotalPreorder(leq) && limit > 0
    requires Heap(Reverse(leq), h0) && Smallest(leq, seen, limit, multiset(h0))
    ensures Heap(Reverse(leq), h) && Smallest(leq, seen + multiset{x}, limit, multiset(h))
    ensures kept <==> |h0| < limit || !leq(h0[0], x)
    ensures !kept ==> h == h0
    ensures kept ==> multiset(h) == multiset(h0) + multiset{x} || (|h0| == limit && multiset(h) == multiset(h0) - multiset{h0[0]} + multiset{x})
  {
    ReverseIsPreorder(leq);
    if |h0| < limit {
      SmallestGrow(leq, seen, limit, multiset(h0), x);
      h := Push(Reverse(leq), h0, x);
      return h, true;
    }
    RootIsLeastOfAll(Reverse(leq), h0);
    if leq(h0[0], x) {
      SmallestReject(leq, seen, limit, multiset(h0), h0[0], x);
      return h0, false;
    }
    SmallestReplace(leq, seen, limit, multiset(h0), h0[0], x);
    h := ReplaceTop(Reverse(leq), h0, x);
    kept := true;
  }

  function Reverse<T>(leq: (T, T) -> bool): (T, T) -> bool {
    (a, b) => leq(b, a)
  }

  lemma ReverseIsPreorder<T(!new)>(leq: (T, T) -> bool)
    requires TotalPreorder(leq)
    ensures TotalPreorder(Reverse(leq))
  {
  }
}
