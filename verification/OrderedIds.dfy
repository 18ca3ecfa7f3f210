/**
  The ordered ID index (internal/core/ordered_id_index.go), with its B-tree as a sorted list,
  and page selection over it and over an arbitrary iteration order
  (internal/core/list_vectors.go).
 */
module OrderedIds {
  import opened Ordering
  import opened BinaryHeap
  import opened Distance

  /** Go's order on strings. */
  predicate LexLeq(a: Id, b: Id) {
    if a == [] then true
    else if b == [] then false
    else if a[0] != b[0] then a[0] < b[0]
    else LexLeq(a[1..], b[1..])
  }

  predicate Less(a: Id, b: Id) {
    a != b && LexLeq(a, b)
  }

  lemma LexTotal(a: Id, b: Id)
    ensures LexLeq(a, b) || LexLeq(b, a)
  {
  }

  lemma LexTransitive(a: Id, b: Id, c: Id)
    requires LexLeq(a, b) && LexLeq(b, c)
    ensures LexLeq(a, c)
  {
  }

  lemma LexAntisymmetric(a: Id, b: Id)
    requires LexLeq(a, b) && LexLeq(b, a)
    ensures a == b
  {
    if a != [] {
      LexAntisymmetric(a[1..], b[1..]);
      assert a == [a[0]] + a[1..] && b == [b[0]] + b[1..];
    }
  }

  lemma LexIsTotalOrder()
    ensures TotalPreorder<Id>(LexLeq)
    ensures forall a: Id, b: Id :: LexLeq(a, b) && LexLeq(b, a) ==> a == b
  {
    forall a: Id, b: Id
      ensures LexLeq(a, b) || LexLeq(b, a)
      ensures LexLeq(a, b) && LexLeq(b, a) ==> a == b
    {
      LexTotal(a, b);
      if LexLeq(a, b) && LexLeq(b, a) {
        LexAntisymmetric(a, b);
      }
    }
    forall a: Id, b: Id, c: Id | LexLeq(a, b) && LexLeq(b, c)
      ensures LexLeq(a, c)
    {
      LexTransitive(a, b, c);
    }
  }

  ghost predicate StrictlySorted(s: seq<Id>) {
    forall i, j | 0 <= i < j < |s| :: Less(s[i], s[j])
  }

  ghost predicate InOrder(s: seq<Id>, i: nat, j: nat) {
    i < j < |s| ==> Less(s[i], s[j])
  }

  /** StrictlySorted, in a form that says nothing about an element until it is asked. */
  ghost predicate Ordered(s: seq<Id>) {
    forall i: nat, j: nat :: InOrder(s, i, j)
  }

  lemma OrderedIsSorted(s: seq<Id>)
    ensures Ordered(s) <==> StrictlySorted(s)
  {
    if Ordered(s) {
      forall i, j | 0 <= i < j < |s|
        ensures Less(s[i], s[j])
      {
        assert InOrder(s, i, j);
      }
    }
  }

  predicate IsEligible(after: Id, id: Id) {
    after == "" || Less(after, id)
  }

  /** The ids that a page may list: all of them from the empty cursor, later ones otherwise. */
  ghost function Eligible(ids: set<Id>, after: Id): set<Id> {
    set id | id in ids && IsEligible(after, id)
  }

  /** The specification of a page: the `limit` smallest eligible ids, in order. */
  ghost predicate IsPage(ids: set<Id>, after: Id, limit: nat, page: seq<Id>) {
    StrictlySorted(page) && Smallest(LexLeq, multiset(Eligible(ids, after)), limit, multiset(page))
  }

  lemma StrictlySortedIsSorted(s: seq<Id>)
    requires StrictlySorted(s)
    ensures Sorted(LexLeq, s) && NoDuplicates(s)
  {
  }

  /** There is only one page, however it was selected. */
  lemma PageIsUnique(ids: set<Id>, after: Id, limit: nat, a: seq<Id>, b: seq<Id>)
    requires IsPage(ids, after, limit, a) && IsPage(ids, after, limit, b)
    ensures a == b
  {
    LexIsTotalOrder();
    StrictlySortedIsSorted(a);
    StrictlySortedIsSorted(b);
    SmallestIsUnique(LexLeq, multiset(Eligible(ids, after)), limit, a, b);
  }

  /** a comes before b in the dictionary: it is a proper prefix, or has the smaller character where they first differ. */
  ghost predicate Precedes(a: Id, b: Id) {
    a < b || exists k: nat :: DifferFirstAt(a, b, k) && a[k] < b[k]
  }

  ghost predicate DifferFirstAt(a: Id, b: Id, k: nat) {
    k < |a| && k < |b| && a[..k] == b[..k] && a[k] != b[k]
  }

  lemma {:induction false} LexIsDictionaryOrder(a: Id, b: Id)
    ensures Less(a, b) <==> Precedes(a, b)
  {
    if a == [] || b == [] {
      assert forall k: nat :: !DifferFirstAt(a, b, k);
    } else if a[0] != b[0] {
      assert DifferFirstAt(a, b, 0);
      assert forall k: nat | DifferFirstAt(a, b, k) :: k > 0 ==> a[..k][0] == b[..k][0];
    } else {
      LexIsDictionaryOrder(a[1..], b[1..]);
      assert a == [a[0]] + a[1..] && b == [b[0]] + b[1..];
      RestPrecedes(a, b);
    }
  }

  lemma RestPrecedes(a: Id, b: Id)
    requires a != [] && b != [] && a[0] == b[0]
    ensures Precedes(a, b) <==> Precedes(a[1..], b[1..])
  {
    assert a == [a[0]] + a[1..] && b == [b[0]] + b[1..];
    if k: nat :| DifferFirstAt(a[1..], b[1..], k) && a[1..][k] < b[1..][k] {
      assert a[..k + 1] == [a[0]] + a[1..][..k] && b[..k + 1] == [b[0]] + b[1..][..k];
      assert DifferFirstAt(a, b, k + 1);
    }
    if k: nat :| DifferFirstAt(a, b, k) && a[k] < b[k] {
      assert a[1..][..k - 1] == a[..k][1..] && b[1..][..k - 1] == b[..k][1..];
      assert DifferFirstAt(a[1..], b[1..], k - 1);
    }
  }

  /** A page lists ids in dictionary order, all of them after its cursor, ... */
  lemma PageIsInDictionaryOrder(ids: set<Id>, after: Id, limit: nat, page: seq<Id>)
    requires IsPage(ids, after, limit, page)
    ensures |page| <= limit && forall i, j | 0 <= i < j < |page| :: Precedes(page[i], page[j])
    ensures forall x | x in page :: x in ids && (after == "" || Precedes(after, x))
  {
    assert |multiset(page)| == |page|;
    forall i, j | 0 <= i < j < |page|
      ensures Precedes(page[i], page[j])
    {
      LexIsDictionaryOrder(page[i], page[j]);
    }
    forall x | x in page
      ensures x in ids && (after == "" || Precedes(after, x))
    {
      assert x in multiset(page);
      assert x in multiset(Eligible(ids, after));
      LexIsDictionaryOrder(after, x);
    }
  }

  /** ... and leaves out only ids after its last one, when it is full. */
  lemma PageLeavesOutLater(ids: set<Id>, after: Id, limit: nat, page: seq<Id>, y: Id)
    requires IsPage(ids, after, limit, page) && y in ids && (after == "" || Precedes(after, y)) && y !in page
    ensures |page| == limit && forall x | x in page :: Precedes(x, y)
  {
    var all := multiset(Eligible(ids, after));
    LexIsDictionaryOrder(after, y);
    assert y in all && y !in multiset(page) && |multiset(page)| == |page|;
    assert y in all - multiset(page);
    forall x | x in page
      ensures Precedes(x, y)
    {
      assert x in multiset(page);
      LexIsDictionaryOrder(x, y);
    }
    var rest := all - multiset(page);
    assert all == multiset(page) + rest;
    assert rest[y] > 0 && |rest| > 0;
  }

  lemma {:induction false} DistinctMultiset<T>(s: seq<T>)
    requires NoDuplicates(s)
    ensures multiset(s) == multiset(Elements(s))
  {
    if s != [] {
      var n := |s| - 1;
      assert s == s[..n] + [s[n]];
      DistinctMultiset(s[..n]);
      assert Elements(s) == Elements(s[..n]) + {s[n]};
      assert s[n] !in Elements(s[..n]);
    } else {
      assert Elements(s) == {};
    }
  }

  /** Distinct elements of a set, none larger than one left out, are the smallest of the set. */
  lemma LowerPartIsSmallest<T(!new)>(leq: (T, T) -> bool, all: set<T>, k: nat, s: seq<T>)
    requires NoDuplicates(s) && Elements(s) <= all && |s| <= k
    requires |s| == k || Elements(s) == all
    requires forall x, y | x in s && y in all && y !in s :: leq(x, y)
    ensures Smallest(leq, multiset(all), k, multiset(s))
  {
    DistinctMultiset(s);
    var rest := all - Elements(s);
    assert all == Elements(s) + rest;
    assert multiset(all) == multiset(Elements(s)) + multiset(rest);
    assert |multiset(s)| == |s| && |multiset(all)| == |all|;
    assert |multiset(all)| == |multiset(s)| + |multiset(rest)|;
    assert Elements(s) == all ==> rest == {};
  }

  /** Two sorted runs, the first below the second, are sorted together. */
  lemma JoinedInOrder(lower: seq<Id>, upper: seq<Id>)
    requires StrictlySorted(lower) && StrictlySorted(upper)
    requires forall x, y | x in lower && y in upper :: Less(x, y)
    ensures StrictlySorted(lower + upper) && Elements(lower + upper) == Elements(lower) + Elements(upper)
  {
  }

  lemma InsertedInOrder(keys: seq<Id>, i: nat, id: Id)
    requires StrictlySorted(keys) && i <= |keys| && (i < |keys| ==> keys[i] != id)
    requires forall j | 0 <= j < i :: Less(keys[j], id)
    requires forall j | i <= j < |keys| :: LexLeq(id, keys[j])
    ensures var longer := keys[..i] + [id] + keys[i..]; StrictlySorted(longer) && Elements(longer) == Elements(keys) + {id}
  {
    assert keys == keys[..i] + keys[i..];
    NotAmong(keys, i, id);
    JoinedInOrder(keys[..i], [id]);
    JoinedInOrder(keys[..i] + [id], keys[i..]);
  }

  lemma RemovedInOrder(keys: seq<Id>, i: nat)
    requires StrictlySorted(keys) && i < |keys|
    ensures var shorter := keys[..i] + keys[i + 1..]; StrictlySorted(shorter) && Elements(shorter) == Elements(keys) - {keys[i]}
  {
    assert keys == keys[..i] + [keys[i]] + keys[i + 1..];
    JoinedInOrder(keys[..i], keys[i + 1..]);
    assert forall j | 0 <= j < |keys| && j != i :: keys[j] != keys[i];
  }

  /** An id that is not where it belongs is nowhere. */
  lemma NotAmong(keys: seq<Id>, i: nat, id: Id)
    requires StrictlySorted(keys) && i <= |keys| && (i < |keys| ==> keys[i] != id)
    requires forall j | 0 <= j < i :: Less(keys[j], id)
    requires forall j | i <= j < |keys| :: LexLeq(id, keys[j])
    ensures id !in keys
  {
    forall j | i < j < |keys|
      ensures keys[j] != id
    {
      if keys[j] == id {
        assert Less(keys[i], keys[j]);
        LexAntisymmetric(id, keys[i]);
      }
    }
  }

  class OrderedIDIndex {
    var keys: seq<Id>

    ghost predicate Valid()
      reads this
    {
      Ordered(keys)
    }

    ghost function Ids(): set<Id>
      reads this
    {
      Elements(keys)
    }

    constructor ()
      ensures Valid() && Ids() == {}
    {
      keys := [];
    }

    /** The position of the first key that is not smaller than id. */
    method Find(id: Id) returns (i: nat)
      requires Valid()
      ensures i <= |keys|
      ensures forall j | 0 <= j < i :: Less(keys[j], id)
      ensures forall j | i <= j < |keys| :: LexLeq(id, keys[j])
    {
      LexIsTotalOrder();
      OrderedIsSorted(keys);
      i := 0;
      while i < |keys| && Less(keys[i], id)
        invariant i <= |keys| && forall j | 0 <= j < i :: Less(keys[j], id)
      {
        i := i + 1;
      }
    }

    method Upsert(id: Id)
      requires Valid()
      modifies this
      ensures Valid() && Ids() == old(Ids()) + {id}
    {
      var i := Find(id);
      OrderedIsSorted(keys);
      if i < |keys| && keys[i] == id {
        assert Ids() + {id} == Ids();
        return;
      }
      InsertedInOrder(keys, i, id);
      keys := keys[..i] + [id] + keys[i..];
      OrderedIsSorted(keys);
    }

    method Delete(id: Id)
      requires Valid()
      modifies this
      ensures Valid() && Ids() == old(Ids()) - {id}
    {
      var i := Find(id);
      OrderedIsSorted(keys);
      if i < |keys| && keys[i] == id {
        RemovedInOrder(keys, i);
        keys := keys[..i] + keys[i + 1..];
        OrderedIsSorted(keys);
      } else {
        NotAmong(keys, i, id);
      }
    }

    method PageAfter(after: Id, limit: int) returns (out: seq<Id>)
      requires Valid()
      ensures IsPage(Ids(), after, AtLeastZero(limit), out)
    {
      out := [];
      if limit <= 0 {
        EmptyPage(Ids(), after);
        return;
      }
      OrderedIsSorted(keys);
      var i := 0;
      if after != "" {
        i := Find(after);
        BeforeIsIneligible(keys, after, i);
      }
      out := Ascend(keys, after, limit, i);
    }
  }

  /** The visitor: keys from position `start` on, none of them smaller than the cursor. */
  method Ascend(keys: seq<Id>, after: Id, limit: nat, start: nat) returns (out: seq<Id>)
    requires StrictlySorted(keys) && limit > 0 && start <= |keys|
    requires forall j | 0 <= j < start :: !IsEligible(after, keys[j])
    ensures IsPage(Elements(keys), after, limit, out)
  {
    out := [];
    var i := start;
    ghost var skipped := i;
    while i < |keys| && |out| < limit
      invariant start <= skipped <= i <= |keys| && |out| <= limit && out == keys[skipped..i]
      invariant forall j | 0 <= j < skipped :: !IsEligible(after, keys[j])
      invariant forall j | skipped <= j < i :: IsEligible(after, keys[j])
    {
      EligibleNow(keys, after, skipped, i);
      if after != "" && LexLeq(keys[i], after) {
        i, skipped := i + 1, i + 1;
      } else {
        out := out + [keys[i]];
        i := i + 1;
      }
    }
    KeysArePage(keys, after, limit, skipped, i);
  }

  /** The visitor's test is the cursor's, and no key after an eligible one is skipped. */
  lemma EligibleNow(keys: seq<Id>, after: Id, skipped: nat, i: nat)
    requires StrictlySorted(keys) && skipped <= i < |keys|
    requires forall j | skipped <= j < i :: IsEligible(after, keys[j])
    ensures IsEligible(after, keys[i]) <==> !(after != "" && LexLeq(keys[i], after))
    ensures skipped < i ==> IsEligible(after, keys[i])
    ensures keys[skipped..i] + [keys[i]] == keys[skipped..i + 1]
  {
    LexIsTotalOrder();
    if skipped < i {
      EligibleStays(after, keys[i - 1], keys[i]);
    }
  }

  lemma BeforeIsIneligible(keys: seq<Id>, after: Id, i: nat)
    requires i <= |keys| && after != "" && forall j | 0 <= j < i :: Less(keys[j], after)
    ensures forall j | 0 <= j < i :: !IsEligible(after, keys[j])
  {
    LexIsTotalOrder();
  }

  lemma EligibleStays(after: Id, x: Id, y: Id)
    requires IsEligible(after, x) && Less(x, y)
    ensures IsEligible(after, y) && !(after != "" && LexLeq(y, after))
  {
    LexIsTotalOrder();
  }

  function AtLeastZero(limit: int): nat {
    if limit <= 0 then 0 else limit
  }

  lemma EmptyPage(ids: set<Id>, after: Id)
    ensures IsPage(ids, after, 0, [])
  {
  }

  lemma EligibleAreLater(keys: seq<Id>, after: Id, from: nat, y: Id)
    requires from <= |keys| && y in Eligible(Elements(keys), after)
    requires forall j | 0 <= j < from :: !IsEligible(after, keys[j])
    ensures y in keys[from..]
  {
    var j :| 0 <= j < |keys| && keys[j] == y;
    assert keys[from..][j - from] == y;
  }

  lemma EarlierIsSmaller(keys: seq<Id>, from: nat, to: nat, x: Id, y: Id)
    requires StrictlySorted(keys) && from <= to <= |keys| && x in keys[from..to] && y in keys[to..]
    ensures LexLeq(x, y)
  {
    var i :| 0 <= i < to - from && keys[from..to][i] == x;
    var j :| 0 <= j < |keys| - to && keys[to..][j] == y;
    assert Less(keys[from + i], keys[to + j]);
  }

  lemma RunIsSorted(keys: seq<Id>, from: nat, to: nat)
    requires StrictlySorted(keys) && from <= to <= |keys|
    ensures StrictlySorted(keys[from..to]) && NoDuplicates(keys[from..to])
  {
    forall i, j | 0 <= i < j < to - from
      ensures Less(keys[from..to][i], keys[from..to][j]) && keys[from..to][i] != keys[from..to][j]
    {
      assert Less(keys[from + i], keys[from + j]);
    }
  }

  lemma RunMembers(keys: seq<Id>, after: Id, from: nat, to: nat)
    requires from <= to <= |keys|
    requires forall j | 0 <= j < from :: !IsEligible(after, keys[j])
    requires forall j | from <= j < to :: IsEligible(after, keys[j])
    ensures var all := Eligible(Elements(keys), after); Elements(keys[from..to]) <= all && (to == |keys| ==> Elements(keys[from..to]) == all)
  {
    var all := Eligible(Elements(keys), after);
    forall x | x in keys[from..to]
      ensures x in all
    {
      var i :| 0 <= i < to - from && keys[from..to][i] == x;
      assert keys[from + i] == x;
    }
    if to == |keys| {
      forall y | y in all
        ensures y in keys[from..to]
      {
        EligibleAreLater(keys, after, from, y);
      }
    }
  }

  lemma RunIsLower(keys: seq<Id>, after: Id, from: nat, to: nat)
    requires StrictlySorted(keys) && from <= to <= |keys|
    requires forall j | 0 <= j < from :: !IsEligible(after, keys[j])
    ensures forall x, y | x in keys[from..to] && y in Eligible(Elements(keys), after) && y !in keys[from..to] :: LexLeq(x, y)
  {
    assert keys[from..] == keys[from..to] + keys[to..];
    forall x, y | x in keys[from..to] && y in Eligible(Elements(keys), after) && y !in keys[from..to]
      ensures LexLeq(x, y)
    {
      EligibleAreLater(keys, after, from, y);
      EarlierIsSmaller(keys, from, to, x, y);
    }
  }

  /** A run of the key list that starts at the first eligible key is a page. */
  lemma KeysArePage(keys: seq<Id>, after: Id, limit: nat, from: nat, to: nat)
    requires StrictlySorted(keys) && from <= to <= |keys| && to - from <= limit
    requires to == |keys| || to - from == limit
    requires forall j | 0 <= j < from :: !IsEligible(after, keys[j])
    requires forall j | from <= j < to :: IsEligible(after, keys[j])
    ensures IsPage(Elements(keys), after, limit, keys[from..to])
  {
    var page, all := keys[from..to], Eligible(Elements(keys), after);
    RunMembers(keys, after, from, to);
    RunIsLower(keys, after, from, to);
    RunIsSorted(keys, from, to);
    LowerPartIsSmallest(LexLeq, all, limit, page);
  }

  /** Offering ids in any order to a bounded max-heap; `order` is the order of the range. */
  method SelectPageIDsFromRange(after: Id, limit: int, order: seq<Id>) returns (out: seq<Id>)
    requires NoDuplicates(order)
    ensures IsPage(Elements(order), after, AtLeastZero(limit), out)
  {
    if limit <= 0 {
      EmptyPage(Elements(order), after);
      return [];
    }
    LexIsTotalOrder();
    var candidates: seq<Id> := [];
    for i := 0 to |order|
      invariant Heap(Reverse(LexLeq), candidates)
      invariant Smallest(LexLeq, multiset(Eligible(Elements(order[..i]), after)), limit, multiset(candidates))
    {
      EligibleOneMore(order, after, i);
      if after != "" && LexLeq(order[i], after) {
        continue;
      }
      var kept;
      candidates, kept := Offer(LexLeq, limit, candidates, order[i], multiset(Eligible(Elements(order[..i]), after)));
    }
    assert order[..|order|] == order;
    out := SortBy(LexLeq, candidates);
    SortedSubsetIsStrict(out, Eligible(Elements(order), after));
  }

  lemma EligibleOneMore(order: seq<Id>, after: Id, i: nat)
    requires NoDuplicates(order) && i < |order|
    ensures IsEligible(after, order[i]) <==> !(after != "" && LexLeq(order[i], after))
    ensures multiset(Eligible(Elements(order[..i + 1]), after))
      == multiset(Eligible(Elements(order[..i]), after)) + if IsEligible(after, order[i]) then multiset{order[i]} else multiset{}
  {
    LexIsTotalOrder();
    assert order[..i + 1] == order[..i] + [order[i]];
    assert Elements(order[..i + 1]) == Elements(order[..i]) + {order[i]} && order[i] !in Elements(order[..i]);
    var before, now := Eligible(Elements(order[..i]), after), Eligible(Elements(order[..i + 1]), after);
    assert now == if IsEligible(after, order[i]) then before + {order[i]} else before;
  }

  lemma SortedSubsetIsStrict(s: seq<Id>, all: set<Id>)
    requires Sorted(LexLeq, s) && multiset(s) <= multiset(all)
    ensures StrictlySorted(s)
  {
    forall i, j | 0 <= i < j < |s|
      ensures Less(s[i], s[j])
    {
      if s[i] == s[j] {
        RepeatIsCounted(s, i, j);
        assert false;
      }
    }
  }
}
