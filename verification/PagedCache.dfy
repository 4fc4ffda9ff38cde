/** The page allocator of the batching engine. */
module PagedCache {
  import opened Options

  /** Token slots of a page. */
  const PAGE_SIZE: nat := 16

  type RequestId = string

  datatype Page = Page(owner: Option<RequestId>, tokensUsed: nat)

  type PageLists = map<RequestId, seq<nat>>

  /** Place `i` of a request's list holds a page of the request. */
  predicate Held(pages: seq<Page>, lists: PageLists, id: RequestId, i: nat)
    requires id in lists && i < |lists[id]|
  {
    var p := lists[id][i];
    p < |pages| && pages[p].owner == Some(id) && pages[p].tokensUsed <= PAGE_SIZE
  }

  predicate Distinct<T(==)>(s: seq<T>) {
    forall i, j :: 0 <= i < j < |s| ==> s[i] != s[j]
  }

  /** Every page is free and blank, or in the list of the request that owns it. */
  ghost predicate Accounted(pages: seq<Page>, free: set<nat>, lists: PageLists) {
    && (forall p :: p in free ==> p < |pages| && pages[p] == Page(None, 0))
    && (forall p :: 0 <= p < |pages| && p !in free ==>
          pages[p].owner.Some? && pages[p].owner.value in lists && p in lists[pages[p].owner.value])
    && (forall id :: id in lists ==> lists[id] != [] && Distinct(lists[id]))
    && (forall id, i :: id in lists && 0 <= i < |lists[id]| ==> Held(pages, lists, id, i))
  }

  /** Of a request's pages, all but the last are full. */
  ghost predicate Packed(pages: seq<Page>, lists: PageLists) {
    forall id, i :: id in lists && 0 <= i < |lists[id]| - 1 ==> FullAt(pages, lists[id], i)
  }

  predicate FullAt(pages: seq<Page>, list: seq<nat>, i: nat)
    requires i < |list|
  {
    list[i] < |pages| && pages[list[i]].tokensUsed == PAGE_SIZE
  }

  /** The token slots that a request has used, if all its pages but the last are full. */
  function TokensOf(pages: seq<Page>, list: seq<nat>): nat
    requires list != [] ==> list[|list| - 1] < |pages|
  {
    if list == [] then 0 else (|list| - 1) * PAGE_SIZE + pages[list[|list| - 1]].tokensUsed
  }

  /** Free pages and the requests' lists share out all pages, each at one place only. */
  lemma PagesArePartitioned(pages: seq<Page>, free: set<nat>, lists: PageLists, p: nat)
    requires Accounted(pages, free, lists)
    ensures p < |pages| <==> p in free || exists id :: id in lists && p in lists[id]
    ensures !(p in free && exists id :: id in lists && p in lists[id])
    ensures forall id, id' :: id in lists && id' in lists && p in lists[id] && p in lists[id'] ==> id == id'
    ensures forall id :: id in lists ==> multiset(lists[id])[p] <= 1
  {
    forall id | id in lists && p in lists[id] ensures p < |pages| && pages[p].owner == Some(id) {
      var i :| 0 <= i < |lists[id]| && lists[id][i] == p;
      assert Held(pages, lists, id, i);
    }
    forall id | id in lists ensures multiset(lists[id])[p] <= 1 {
      AtMostOnce(lists[id], p);
    }
  }

  lemma {:induction false} AtMostOnce(s: seq<nat>, p: nat)
    requires Distinct(s)
    ensures multiset(s)[p] <= 1
  {
    if s != [] {
      var last := |s| - 1;
      AtMostOnce(s[..last], p);
      assert s == s[..last] + [s[last]];
    }
  }

  lemma NoListsMeansAllFree(pages: seq<Page>, free: set<nat>, lists: PageLists)
    requires Accounted(pages, free, lists) && lists == map[]
    ensures forall p :: p in free <==> 0 <= p < |pages|
  {
  }

  function Below(n: nat): (s: set<nat>)
    ensures |s| == n && forall p :: p in s <==> 0 <= p < n
  {
    if n == 0 then {} else Below(n - 1) + {n - 1}
  }

  /** Giving one more page to a request whose last page is full. */
  lemma PageTaken(pages: seq<Page>, free: set<nat>, lists: PageLists, id: RequestId, p: nat, used: nat)
    requires Accounted(pages, free, lists) && p in free && used <= PAGE_SIZE
    ensures p < |pages|
    ensures var list := if id in lists then lists[id] else [];
            var pages', lists' := pages[p := Page(Some(id), used)], lists[id := list + [p]];
            Accounted(pages', free - {p}, lists')
  {
    var list := if id in lists then lists[id] else [];
    var pages', lists' := pages[p := Page(Some(id), used)], lists[id := list + [p]];
    forall id', i | id' in lists' && 0 <= i < |lists'[id']| ensures Held(pages', lists', id', i) {
      if id' != id || i < |list| {
        assert Held(pages, lists, id', i);
      }
    }
    forall i | 0 <= i < |list| ensures list[i] != p {
      assert Held(pages, lists, id, i);
    }
    forall q | 0 <= q < |pages'| && q !in free - {p}
      ensures pages'[q].owner.Some? && pages'[q].owner.value in lists' && q in lists'[pages'[q].owner.value]
    {
      if q != p && pages[q].owner == Some(id) {
        var k :| 0 <= k < |list| && list[k] == q;
        assert lists'[id][k] == q;
      } else if q == p {
        assert lists'[id][|list|] == p;
      }
    }
  }

  lemma PageTakenPacked(pages: seq<Page>, free: set<nat>, lists: PageLists, id: RequestId, p: nat, used: nat)
    requires Accounted(pages, free, lists) && p in free && Packed(pages, lists)
    requires id in lists ==> FullAt(pages, lists[id], |lists[id]| - 1)
    ensures p < |pages|
    ensures var list := if id in lists then lists[id] else [];
            Packed(pages[p := Page(Some(id), used)], lists[id := list + [p]])
  {
    var list := if id in lists then lists[id] else [];
    var pages', lists' := pages[p := Page(Some(id), used)], lists[id := list + [p]];
    forall id', i | id' in lists' && 0 <= i < |lists'[id']| - 1 ensures FullAt(pages', lists'[id'], i) {
      assert id' in lists && i < |lists[id']| && Held(pages, lists, id', i);
      assert i < |lists[id']| - 1 ==> FullAt(pages, lists[id'], i);
    }
  }

  lemma TokenAdded(pages: seq<Page>, free: set<nat>, lists: PageLists, id: RequestId)
    requires Accounted(pages, free, lists) && id in lists
    requires var p := lists[id][|lists[id]| - 1]; p < |pages| && pages[p].tokensUsed < PAGE_SIZE
    ensures var p := lists[id][|lists[id]| - 1];
            var pages' := pages[p := pages[p].(tokensUsed := pages[p].tokensUsed + 1)];
            && Accounted(pages', free, lists)
            && (Packed(pages, lists) ==> Packed(pages', lists))
  {
    var last := |lists[id]| - 1;
    var p := lists[id][last];
    assert Held(pages, lists, id, last);
    var pages' := pages[p := pages[p].(tokensUsed := pages[p].tokensUsed + 1)];
    forall id', i | id' in lists && 0 <= i < |lists[id']| ensures Held(pages', lists, id', i) {
      assert Held(pages, lists, id', i);
    }
    forall id', i | Packed(pages, lists) && id' in lists && 0 <= i < |lists[id']| - 1 ensures FullAt(pages', lists[id'], i) {
      assert Held(pages, lists, id', i) && FullAt(pages, lists[id'], i);
    }
  }

  /** The pages after blanking those in `list`. */
  ghost predicate Blanked(pages: seq<Page>, pages': seq<Page>, list: seq<nat>) {
    && |pages'| == |pages|
    && forall p :: 0 <= p < |pages| ==> pages'[p] == if p in list then Page(None, 0) else pages[p]
  }

  lemma PagesReturned(pages: seq<Page>, pages': seq<Page>, free: set<nat>, lists: PageLists, id: RequestId)
    requires Accounted(pages, free, lists) && id in lists && Blanked(pages, pages', lists[id])
    ensures Accounted(pages', free + (set p | p in lists[id]), lists - {id})
    ensures Packed(pages, lists) ==> Packed(pages', lists - {id})
  {
    var lists' := lists - {id};
    forall p | p in lists[id] ensures p < |pages| && pages[p].owner == Some(id) {
      var i :| 0 <= i < |lists[id]| && lists[id][i] == p;
      assert Held(pages, lists, id, i);
    }
    forall id', i | id' in lists' && 0 <= i < |lists'[id']| ensures Held(pages', lists', id', i) {
      assert Held(pages, lists, id', i);
    }
    forall id', i | Packed(pages, lists) && id' in lists' && 0 <= i < |lists'[id']| - 1 ensures FullAt(pages', lists'[id'], i) {
      assert Held(pages, lists, id', i) && FullAt(pages, lists[id'], i);
    }
  }

  lemma OwnedIsNotFree(pages: seq<Page>, free: set<nat>, lists: PageLists, id: RequestId, i: nat)
    requires Accounted(pages, free, lists) && id in lists && i < |lists[id]|
    ensures lists[id][i] < |pages| && lists[id][i] !in free && lists[id][i] !in lists[id][..i]
  {
    assert Held(pages, lists, id, i);
  }

  /** The pages and the free set after returning those in `list`. */
  ghost predicate Returned(pages: seq<Page>, pages': seq<Page>, free: set<nat>, free': set<nat>, list: seq<nat>) {
    && Blanked(pages, pages', list)
    && free' == free + (set p | p in list)
    && |free'| == |free| + |list|
  }

  lemma ReturnOne(pages: seq<Page>, pages': seq<Page>, free: set<nat>, free': set<nat>, list: seq<nat>, p: nat)
    requires Returned(pages, pages', free, free', list)
    requires p < |pages| && p !in free && p !in list
    ensures |pages'| == |pages|
    ensures Returned(pages, pages'[p := Page(None, 0)], free, free' + {p}, list + [p])
  {
  }

  /** All requests but `id` keep their pages and tokens. */
  ghost predicate OthersKeep(pages: seq<Page>, lists: PageLists, pages': seq<Page>, lists': PageLists, id: RequestId) {
    forall other :: other in lists && other != id ==>
      && other in lists' && lists'[other] == lists[other] != []
      && var last := lists[other][|lists[other]| - 1];
         last < |pages| && last < |pages'| && TokensOf(pages', lists[other]) == TokensOf(pages, lists[other])
  }

  /** The tokens after a further page, of which `used` slots are taken. */
  lemma TokensOnNewPage(pages: seq<Page>, free: set<nat>, lists: PageLists, id: RequestId, p: nat, used: nat)
    requires Accounted(pages, free, lists) && p in free
    ensures p < |pages|
    ensures var list := if id in lists then lists[id] else [];
            var pages', lists' := pages[p := Page(Some(id), used)], lists[id := list + [p]];
            OthersKeep(pages, lists, pages', lists', id) && TokensOf(pages', list + [p]) == |list| * PAGE_SIZE + used
  {
    NonEmptyLists(pages, free, lists);
  }

  /** The tokens after a further slot of the last page. */
  lemma TokensOnLastPage(pages: seq<Page>, free: set<nat>, lists: PageLists, id: RequestId)
    requires Accounted(pages, free, lists) && id in lists
    ensures lists[id] != [] && lists[id][|lists[id]| - 1] < |pages|
    ensures var p := lists[id][|lists[id]| - 1];
            var pages' := pages[p := pages[p].(tokensUsed := pages[p].tokensUsed + 1)];
            OthersKeep(pages, lists, pages', lists, id) && TokensOf(pages', lists[id]) == TokensOf(pages, lists[id]) + 1
  {
    NonEmptyLists(pages, free, lists);
  }

  lemma SlotTaken(pages: seq<Page>, free: set<nat>, lists: PageLists, id: RequestId, p: nat)
    requires Accounted(pages, free, lists) && p in free && id in lists
    requires lists[id] != [] && FullAt(pages, lists[id], |lists[id]| - 1)
    ensures p < |pages|
    ensures var pages', lists' := pages[p := Page(Some(id), 1)], lists[id := lists[id] + [p]];
            Accounted(pages', free - {p}, lists') && (Packed(pages, lists) ==> Packed(pages', lists'))
  {
    hide Accounted, Packed;
    PageTaken(pages, free, lists, id, p, 1);
    if Packed(pages, lists) {
      PageTakenPacked(pages, free, lists, id, p, 1);
    }
  }

  lemma NothingTaken(pages: seq<Page>, free: set<nat>, lists: PageLists, id: RequestId)
    requires Accounted(pages, free, lists)
    ensures OthersKeep(pages, lists, pages, lists, id)
    ensures id in lists ==>
              var last := |lists[id]| - 1;
              last >= 0 && lists[id][last] < |pages| && pages[lists[id][last]].tokensUsed <= PAGE_SIZE
              && TokensOf(pages, lists[id]) == last * PAGE_SIZE + pages[lists[id][last]].tokensUsed
  {
    NonEmptyLists(pages, free, lists);
  }

  lemma NonEmptyLists(pages: seq<Page>, free: set<nat>, lists: PageLists)
    requires Accounted(pages, free, lists)
    ensures forall id :: id in lists ==> lists[id] != [] && Held(pages, lists, id, |lists[id]| - 1)
  {
  }

  class PagedKVCache {
    var pages: seq<Page>
    var freePageIds: set<nat>
    var requestPages: PageLists

    ghost predicate Valid()
      reads this
    {
      Accounted(pages, freePageIds, requestPages)
    }

    constructor (totalPages: nat)
      ensures Valid() && AllPacked() && |pages| == totalPages && requestPages == map[]
      ensures freePageIds == Below(totalPages)
    {
      pages := seq(totalPages, _ => Page(None, 0));
      freePageIds := Below(totalPages);
      requestPages := map[];
    }

    /** One free page for the request, whichever the set yields; none if all are taken. */
    method AllocatePage(id: RequestId) returns (page: Option<nat>)
      requires Valid()
      modifies this
      ensures Valid() && |pages| == old(|pages|)
      ensures old(AllPacked() && (id in requestPages ==> LastFull(id))) ==> AllPacked()
      ensures page.None? <==> old(freePageIds) == {}
      ensures page.None? ==> unchanged(this)
      ensures page.Some? ==>
                && page.value in old(freePageIds) && freePageIds == old(freePageIds) - {page.value}
                && requestPages == old(requestPages)[id := (if id in old(requestPages) then old(requestPages)[id] else []) + [page.value]]
                && pages == old(pages)[page.value := Page(Some(id), 0)]
    {
      hide Accounted, Held, FullAt, Packed;
      if freePageIds == {} { return None; }
      var pageId :| pageId in freePageIds;
      PageTaken(pages, freePageIds, requestPages, id, pageId, 0);
      NonEmptyLists(pages, freePageIds, requestPages);
      if AllPacked() && (id in requestPages ==> LastFull(id)) {
        PageTakenPacked(pages, freePageIds, requestPages, id, pageId, 0);
      }
      ghost var list := if id in requestPages then requestPages[id] else [];
      ghost var lists := requestPages[id := list + [pageId]];
      freePageIds := freePageIds - {pageId};
      pages := pages[pageId := Page(Some(id), 0)];
      if id !in requestPages {
        requestPages := requestPages[id := []];
      }
      requestPages := requestPages[id := requestPages[id] + [pageId]];
      assert requestPages == lists;
      page := Some(pageId);
    }

    ghost predicate AllPacked()
      reads this
    {
      Packed(pages, requestPages)
    }

    ghost predicate LastFull(id: RequestId)
      requires id in requestPages
      reads this
    {
      requestPages[id] == [] || FullAt(pages, requestPages[id], |requestPages[id]| - 1)
    }

    /** Count one token of the request, taking a further page when its last one is full.
        A request without pages gets its first one, and that token is not counted. */
    method RecordToken(id: RequestId) returns (ok: bool)
      requires Valid()
      modifies this
      ensures Valid() && |pages| == old(|pages|) && (old(AllPacked()) ==> AllPacked())
      ensures requestPages.Keys == old(requestPages.Keys) + if id !in old(requestPages) && ok then {id} else {}
      ensures OthersKeep(old(pages), old(requestPages), pages, requestPages, id)
      ensures id !in old(requestPages) ==> ok == (old(freePageIds) != {})
      ensures id !in old(requestPages) && ok ==> |requestPages[id]| == 1 && TokensHeld(id) == 0
      ensures id in old(requestPages) ==> id in requestPages && TokensHeld(id) == old(TokensHeld(id)) + if ok then 1 else 0
      ensures id in old(requestPages) && !ok ==> old(freePageIds) == {} && old(TokensHeld(id)) == PAGE_SIZE * |old(requestPages)[id]|
    {
      hide Accounted, Packed, TokensOf, OthersKeep;
      NothingTaken(pages, freePageIds, requestPages, id);
      if id !in requestPages || requestPages[id] == [] {
        var first := AllocatePage(id);
        if first != None {
          TokensOnNewPage(old(pages), old(freePageIds), old(requestPages), id, first.value, 0);
        }
        return first != None;
      }
      var lastPageId := requestPages[id][|requestPages[id]| - 1];
      if pages[lastPageId].tokensUsed >= PAGE_SIZE {
        var page := AllocatePage(id);
        if page == None { return false; }
        TokensOnNewPage(old(pages), old(freePageIds), old(requestPages), id, page.value, 1);
        SlotTaken(old(pages), old(freePageIds), old(requestPages), id, page.value);
        pages := pages[page.value := pages[page.value].(tokensUsed := 1)];
        assert pages == old(pages)[page.value := Page(Some(id), 1)];
        ok := true;
      } else {
        TokenAdded(pages, freePageIds, requestPages, id);
        TokensOnLastPage(pages, freePageIds, requestPages, id);
        pages := pages[lastPageId := pages[lastPageId].(tokensUsed := pages[lastPageId].tokensUsed + 1)];
        ok := true;
      }
    }

    ghost function TokensHeld(id: RequestId): nat
      requires Valid() && id in requestPages
      reads this
    {
      NonEmptyLists(pages, freePageIds, requestPages);
      TokensOf(pages, requestPages[id])
    }

    /** Return all pages of a request. */
    method FreeRequest(id: RequestId) returns (n: nat)
      requires Valid()
      modifies this
      ensures Valid() && |pages| == old(|pages|) && (old(AllPacked()) ==> AllPacked())
      ensures requestPages == old(requestPages) - {id} && freePageIds >= old(freePageIds)
      ensures var list := if id in old(requestPages) then old(requestPages)[id] else [];
              n == |list| && Returned(old(pages), pages, old(freePageIds), freePageIds, list)
      ensures |freePageIds| == |old(freePageIds)| + n
    {
      hide Accounted, Held, Returned;
      if id !in requestPages {
        NothingReturned(pages, freePageIds, []);
        return 0;
      }
      var pageIds := requestPages[id];
      ghost var free0, pages0 := freePageIds, pages;
      requestPages := requestPages - {id};
      NothingReturned(pages, freePageIds, pageIds);
      for i := 0 to |pageIds|
        invariant requestPages == old(requestPages) - {id}
        invariant Returned(pages0, pages, free0, freePageIds, pageIds[..i])
      {
        var pid := pageIds[i];
        OwnedIsNotFree(pages0, free0, old(requestPages), id, i);
        assert pageIds[..i + 1] == pageIds[..i] + [pid];
        ReturnOne(pages0, pages, free0, freePageIds, pageIds[..i], pid);
        pages := pages[pid := Page(None, 0)];
        freePageIds := freePageIds + {pid};
      }
      assert pageIds[..|pageIds|] == pageIds;
      AllReturned(pages0, pages, free0, freePageIds, old(requestPages), id);
      n := |pageIds|;
    }
  }

  lemma NothingReturned(pages: seq<Page>, free: set<nat>, list: seq<nat>)
    ensures Returned(pages, pages, free, free, list[..0])
  {
  }

  lemma AllReturned(pages: seq<Page>, pages': seq<Page>, free: set<nat>, free': set<nat>, lists: PageLists, id: RequestId)
    requires Accounted(pages, free, lists) && id in lists && Returned(pages, pages', free, free', lists[id])
    ensures Accounted(pages', free', lists - {id}) && |pages'| == |pages|
    ensures Packed(pages, lists) ==> Packed(pages', lists - {id})
    ensures free' >= free && |free'| == |free| + |lists[id]|
  {
    PagesReturned(pages, pages', free, lists, id);
  }
}
