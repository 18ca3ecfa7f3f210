/** Cursor paging over ids (internal/core/list_vectors.go), and whole walks of pages. */
module Paging {
  import opened Ordering
  import opened Distance
  import opened OrderedIds
  import opened VectorStores

  /** One answer: the listed ids, and the cursor for the next request, empty at the end. */
  datatype Page = Page(ids: seq<Id>, next: Id)

  ghost predicate IsAnswer(ids: set<Id>, after: Id, limit: nat, page: Page) {
    && IsPage(ids, after, limit, page.ids)
    && (|Eligible(ids, after)| <= limit ==> page.next == "")
    && (|Eligible(ids, after)| > limit > 0 ==> page.ids != [] && page.next == page.ids[|page.ids| - 1])
  }

  /** Selecting one id more than asked for tells whether there is a next page. */
  lemma ShorterPage(ids: set<Id>, after: Id, limit: nat, long: seq<Id>)
    requires limit > 0 && IsPage(ids, after, limit + 1, long)
    ensures |long| > limit <==> |Eligible(ids, after)| > limit
    ensures |long| > limit ==> IsPage(ids, after, limit, long[..limit])
    ensures |long| <= limit ==> IsPage(ids, after, limit, long)
  {
    LexIsTotalOrder();
    var all := Eligible(ids, after);
    assert |multiset(long)| == |long| && |multiset(all)| == |all|;
    if |long| > limit {
      var short, last := long[..limit], long[limit];
      assert long == short + [last];
      assert multiset(long) == multiset(short) + multiset{last};
      forall x, y | x in multiset(short) && y in multiset(all) - multiset(short)
        ensures LexLeq(x, y)
      {
        var i :| 0 <= i < |short| && short[i] == x;
        assert Less(long[i], long[limit]);
        if y != last {
          assert y in multiset(all) - multiset(long);
          assert x in multiset(long);
        }
      }
    }
  }

  method SelectPage(store: MemoryVectorStore, after: Id, limit: nat) returns (page: Page)
    requires store.Valid() && limit > 0
    ensures IsAnswer(store.vectors.Keys, after, limit, page)
    ensures forall i | 0 <= i < |page.ids| :: page.ids[i] in store.vectors
  {
    var pageIDs := store.PageVectorIDs(after, limit + 1);
    ShorterPage(store.vectors.Keys, after, limit, pageIDs);
    var hasMore := |pageIDs| > limit;
    if hasMore {
      pageIDs := pageIDs[..limit];
    }
    PageIdsExist(store.vectors.Keys, after, limit, pageIDs);
    page := Page(pageIDs, if hasMore && |pageIDs| > 0 then pageIDs[|pageIDs| - 1] else "");
  }

  /** The payload of a page; ids that are no longer stored are skipped. */
  method FetchPage(store: MemoryVectorStore, ids: seq<Id>, idsOnly: bool) returns (vectors: seq<Vector>)
    requires store.Valid() && forall i | 0 <= i < |ids| :: ids[i] in store.vectors
    ensures |vectors| == |ids| && forall i | 0 <= i < |ids| :: vectors[i] == Vector(ids[i], if idsOnly then [] else store.vectors[ids[i]])
  {
    vectors := [];
    for i := 0 to |ids|
      invariant |vectors| == i
      invariant forall j | 0 <= j < i :: vectors[j] == Vector(ids[j], if idsOnly then [] else store.vectors[ids[j]])
    {
      if idsOnly {
        vectors := vectors + [Vector(ids[i], [])];
      } else {
        var vec := store.GetVector(ids[i]);
        if vec.Some? {
          vectors := vectors + [vec.value];
        }
      }
    }
  }

  method ListVectorsPage(store: MemoryVectorStore, after: Id, limit: int, idsOnly: bool) returns (vectors: seq<Vector>, next: Id, ghost page: Page)
    requires store.Valid()
    ensures limit <= 0 ==> vectors == [] && next == ""
    ensures limit > 0 ==> IsAnswer(store.vectors.Keys, after, limit, page) && next == page.next && |vectors| == |page.ids|
    ensures limit > 0 ==> forall i | 0 <= i < |vectors| ::
      page.ids[i] in store.vectors && vectors[i] == Vector(page.ids[i], if idsOnly then [] else store.vectors[page.ids[i]])
  {
    if limit <= 0 {
      return [], "", Page([], "");
    }
    var selected := SelectPage(store, after, limit);
    page := selected;
    vectors := FetchPage(store, selected.ids, idsOnly);
    next := selected.next;
  }

  lemma PageIdsExist(ids: set<Id>, after: Id, limit: nat, page: seq<Id>)
    requires IsPage(ids, after, limit, page)
    ensures forall i | 0 <= i < |page| :: page[i] in ids && IsEligible(after, page[i])
    ensures |page| == Min(limit, |Eligible(ids, after)|)
  {
    assert |multiset(page)| == |page| && |multiset(Eligible(ids, after))| == |Eligible(ids, after)|;
    forall i | 0 <= i < |page|
      ensures page[i] in Eligible(ids, after)
    {
      assert page[i] in multiset(page);
      assert page[i] in multiset(Eligible(ids, after));
    }
  }

  /** The cursor of request i of a walk. */
  function Cursor(pages: seq<Page>, i: nat): Id
    requires i <= |pages|
  {
    if i == 0 then "" else pages[i - 1].next
  }

  /**
    A client follows the cursor from the start, never past the end; between any two requests
    the stored ids may change in any way. No id is empty: the service refuses such ids.
   */
  ghost predicate Walk(states: seq<set<Id>>, limits: seq<nat>, pages: seq<Page>) {
    && |states| == |limits| == |pages|
    && forall i | 0 <= i < |pages| :: WalkStep(states[i], limits[i], Cursor(pages, i), pages[i]) && (i > 0 ==> Cursor(pages, i) != "")
  }

  ghost predicate WalkStep(ids: set<Id>, limit: nat, after: Id, page: Page) {
    limit > 0 && "" !in ids && IsAnswer(ids, after, limit, page)
  }

  ghost function Listed(pages: seq<Page>): seq<Id> {
    if pages == [] then [] else Listed(pages[..|pages| - 1]) + pages[|pages| - 1].ids
  }

  lemma WalkPrefix(states: seq<set<Id>>, limits: seq<nat>, pages: seq<Page>)
    requires Walk(states, limits, pages) && pages != []
    ensures var n := |pages| - 1; Walk(states[..n], limits[..n], pages[..n])
    ensures var n := |pages| - 1; WalkStep(states[n], limits[n], Cursor(pages, n), pages[n]) && (n > 0 ==> Cursor(pages, n) != "")
  {
    var n := |pages| - 1;
    forall i | 0 <= i < n
      ensures Cursor(pages[..n], i) == Cursor(pages, i)
    {
    }
  }

  /** What one page adds: ids after the cursor, up to the next cursor. */
  lemma StepIsBetween(ids: set<Id>, limit: nat, after: Id, page: Page)
    requires WalkStep(ids, limit, after, page)
    ensures StrictlySorted(page.ids) && forall id | id in page.ids :: id in ids && IsEligible(after, id)
    ensures page.next != "" ==> page.next in page.ids && forall id | id in page.ids :: LexLeq(id, page.next)
  {
    LexIsTotalOrder();
    PageIdsExist(ids, after, limit, page.ids);
    if page.next != "" {
      forall id | id in page.ids
        ensures LexLeq(id, page.next)
      {
        var i :| 0 <= i < |page.ids| && page.ids[i] == id;
        assert i < |page.ids| - 1 ==> Less(page.ids[i], page.ids[|page.ids| - 1]);
      }
    }
  }

  /** Every walk lists strictly increasing ids, so none twice, whatever happens to the store meanwhile. */
  lemma {:induction false} WalkIsIncreasing(states: seq<set<Id>>, limits: seq<nat>, pages: seq<Page>)
    requires Walk(states, limits, pages)
    ensures StrictlySorted(Listed(pages))
    ensures pages != [] && pages[|pages| - 1].next != "" ==> forall id | id in Listed(pages) :: LexLeq(id, pages[|pages| - 1].next)
  {
    if pages != [] {
      LexIsTotalOrder();
      var n := |pages| - 1;
      WalkPrefix(states, limits, pages);
      WalkIsIncreasing(states[..n], limits[..n], pages[..n]);
      StepIsBetween(states[n], limits[n], Cursor(pages, n), pages[n]);
      forall x, y | x in Listed(pages[..n]) && y in pages[n].ids
        ensures Less(x, y)
      {
        assert n > 0;
        assert LexLeq(x, Cursor(pages, n)) && Less(Cursor(pages, n), y);
      }
      AppendKeepsOrder(Listed(pages[..n]), pages[n].ids);
    }
  }

  lemma AppendKeepsOrder(a: seq<Id>, b: seq<Id>)
    requires StrictlySorted(a) && StrictlySorted(b) && forall x, y | x in a && y in b :: Less(x, y)
    ensures StrictlySorted(a + b)
  {
    forall i, j | 0 <= i < j < |a + b|
      ensures Less((a + b)[i], (a + b)[j])
    {
      if i < |a| && j >= |a| {
        assert a[i] in a && b[j - |a|] in b;
      }
    }
  }

  /** A stored id that a page passes over lies after its next cursor. */
  lemma PassedOver(ids: set<Id>, limit: nat, after: Id, page: Page, id: Id)
    requires WalkStep(ids, limit, after, page) && id in ids && IsEligible(after, id) && id !in page.ids
    ensures page.next != "" && Less(page.next, id)
  {
    var all := multiset(Eligible(ids, after));
    PageIdsExist(ids, after, limit, page.ids);
    var left := all - multiset(page.ids);
    assert id in left && left == multiset{id} + (left - multiset{id});
    assert |left| == |all| - |multiset(page.ids)|;
    assert page.next in multiset(page.ids);
    assert LexLeq(page.next, id);
  }

  /** The walk has yet to come to this id. */
  ghost predicate StillAhead(pages: seq<Page>, id: Id) {
    pages == [] || (pages[|pages| - 1].next != "" && Less(pages[|pages| - 1].next, id))
  }

  /** A page lists an id that is ahead of the cursor, or the id is still ahead. */
  lemma ListedOrAhead(ids: set<Id>, limit: nat, pages: seq<Page>, id: Id)
    requires pages != [] && StillAhead(pages[..|pages| - 1], id) && id in ids
    requires WalkStep(ids, limit, Cursor(pages, |pages| - 1), pages[|pages| - 1])
    ensures id in pages[|pages| - 1].ids || StillAhead(pages, id)
  {
    var n := |pages| - 1;
    assert IsEligible(Cursor(pages, n), id);
    if id !in pages[n].ids {
      PassedOver(ids, limit, Cursor(pages, n), pages[n], id);
    }
  }

  /** A walk lists every id that was stored throughout, unless the id is still ahead; at the end none is. */
  lemma {:induction false} WalkMissesNothing(states: seq<set<Id>>, limits: seq<nat>, pages: seq<Page>, id: Id)
    requires Walk(states, limits, pages) && forall i | 0 <= i < |states| :: id in states[i]
    ensures id in Listed(pages) || StillAhead(pages, id)
  {
    if pages != [] {
      var n := |pages| - 1;
      WalkPrefix(states, limits, pages);
      WalkMissesNothing(states[..n], limits[..n], pages[..n], id);
      if id !in Listed(pages[..n]) {
        ListedOrAhead(states[n], limits[n], pages, id);
      }
    }
  }

  lemma {:induction false} WalkListsStored(states: seq<set<Id>>, limits: seq<nat>, pages: seq<Page>, ids: set<Id>)
    requires Walk(states, limits, pages) && forall i | 0 <= i < |states| :: states[i] <= ids
    ensures Elements(Listed(pages)) <= ids
    ensures |Listed(pages)| >= |pages| - (if pages != [] && pages[|pages| - 1].next == "" then 1 else 0)
  {
    if pages != [] {
      var n := |pages| - 1;
      WalkPrefix(states, limits, pages);
      WalkListsStored(states[..n], limits[..n], pages[..n], ids);
      StepIsBetween(states[n], limits[n], Cursor(pages, n), pages[n]);
      assert n > 0 ==> pages[..n][n - 1].next != "";
    }
  }

  /** On a store that does not change, a walk has at most |ids| + 1 requests and lists exactly the stored ids, in order. */
  lemma WalkOfFixedStore(ids: set<Id>, states: seq<set<Id>>, limits: seq<nat>, pages: seq<Page>)
    requires Walk(states, limits, pages) && forall i | 0 <= i < |states| :: states[i] == ids
    ensures |pages| <= |ids| + 1
    ensures StrictlySorted(Listed(pages)) && Elements(Listed(pages)) <= ids
    ensures pages != [] && pages[|pages| - 1].next == "" ==> Elements(Listed(pages)) == ids
  {
    WalkIsIncreasing(states, limits, pages);
    WalkListsStored(states, limits, pages, ids);
    StrictlySortedIsSorted(Listed(pages));
    CountDistinct(Listed(pages), ids);
    forall id | id in ids
      ensures pages != [] && pages[|pages| - 1].next == "" ==> id in Listed(pages)
    {
      WalkMissesNothing(states, limits, pages, id);
    }
  }

  lemma CountDistinct(s: seq<Id>, ids: set<Id>)
    requires NoDuplicates(s) && Elements(s) <= ids
    ensures |s| <= |ids|
  {
    DistinctMultiset(s);
    assert |multiset(s)| == |s| == |multiset(Elements(s))| == |Elements(s)|;
    assert ids == Elements(s) + (ids - Elements(s));
  }
}
