/** A file of pages behind a cache that keeps the most recently used ones. */
module PageCaching {
  import opened ByteStrings
  import opened Options
  import opened BTreeShape
  import opened PageFormat

  predicate NoRepeats(s: seq<nat>) {
    forall i, j :: 0 <= i < j < |s| ==> s[i] != s[j]
  }

  /** `order` without `id`. */
  function Retained(order: seq<nat>, id: nat): (r: seq<nat>)
    ensures |r| <= |order| && forall x :: x in r <==> x in order && x != id
  {
    if order == [] then []
    else if order[0] == id then Retained(order[1..], id)
    else [order[0]] + Retained(order[1..], id)
  }

  lemma {:induction false} RetainedNoRepeats(order: seq<nat>, id: nat)
    requires NoRepeats(order)
    ensures NoRepeats(Retained(order, id))
    ensures |Retained(order, id)| == if id in order then |order| - 1 else |order|
  {
    if order != [] {
      RetainedNoRepeats(order[1..], id);
      var rest := Retained(order[1..], id);
      forall i | 0 <= i < |rest| ensures rest[i] != order[0] {
        assert rest[i] in order[1..];
        var j :| 0 <= j < |order[1..]| && order[1..][j] == rest[i];
        assert order[j + 1] != order[0];
      }
      assert id in order <==> order[0] == id || id in order[1..];
      if order[0] == id {
        forall j | 0 <= j < |order[1..]| ensures order[1..][j] != id {
          assert order[j + 1] != order[0];
        }
      }
    }
  }

  class PageCache {
    const capacity: nat
    var pages: map<nat, Node>
    /** Most recently used first. */
    var order: seq<nat>

    /** The order lists the cached pages, each once; a cache without room still keeps the
        page that was used last. */
    ghost predicate Valid()
      reads this
    {
      && NoRepeats(order) && (forall id :: id in order <==> id in pages)
      && (|order| <= 1 || |order| <= capacity)
    }

    constructor (capacity: nat)
      ensures Valid() && this.capacity == capacity && pages == map[]
    {
      this.capacity := capacity;
      pages, order := map[], [];
    }

    method Get(id: nat) returns (node: Option<Node>)
      requires Valid()
      modifies this
      ensures Valid() && pages == old(pages)
      ensures node == if id in pages then Some(pages[id]) else None
      ensures order == if id in pages then [id] + Retained(old(order), id) else old(order)
    {
      if id in pages {
        RetainedNoRepeats(order, id);
        order := [id] + Retained(order, id);
        return Some(pages[id]);
      }
      node := None;
    }

    /** Keep a page, in place of the one that has not been used for the longest time when
        there is no room. */
    method Insert(id: nat, node: Node)
      requires Valid()
      modifies this
      ensures Valid() && id in pages && pages[id] == node
      ensures forall other :: other in pages && other != id ==> other in old(pages) && pages[other] == old(pages)[other]
      ensures var rest := Retained(old(order), id);
              var evicted := id !in old(pages) && |old(order)| >= capacity && old(order) != [];
              order == [id] + if evicted then rest[..|rest| - 1] else rest
    {
      MakeRoom(id);
      order := [id] + order;
      pages := pages[id := node];
    }

    method MakeRoom(id: nat)
      requires Valid()
      modifies this
      ensures NoRepeats(order) && id !in order && (order == [] || |order| < capacity)
      ensures forall x :: x in order <==> x in pages && x != id
      ensures forall x :: x in pages ==> x in old(pages) && pages[x] == old(pages)[x]
      ensures var rest := Retained(old(order), id);
              var evicted := id !in old(pages) && |old(order)| >= capacity && old(order) != [];
              order == if evicted then rest[..|rest| - 1] else rest
    {
      hide Retained;
      RetainedNoRepeats(order, id);
      KeptWhole(order, id);
      SameCount(order, pages);
      if id in pages {
        order := Retained(order, id);
      } else if |pages| >= capacity {
        if order != [] {
          var evictId := order[|order| - 1];
          DroppedLast(order);
          order := order[..|order| - 1];
          pages := pages - {evictId};
        }
      }
    }

    method Invalidate(id: nat)
      requires Valid()
      modifies this
      ensures Valid() && pages == old(pages) - {id} && order == Retained(old(order), id)
    {
      RetainedNoRepeats(order, id);
      pages := pages - {id};
      order := Retained(order, id);
    }
  }

  lemma {:induction false} KeptWhole(order: seq<nat>, id: nat)
    ensures id !in order ==> Retained(order, id) == order
  {
    if order != [] {
      KeptWhole(order[1..], id);
    }
  }

  lemma DroppedLast(order: seq<nat>)
    requires order != [] && NoRepeats(order)
    ensures forall x :: x in order[..|order| - 1] <==> x in order && x != order[|order| - 1]
  {
    var last := |order| - 1;
    assert order == order[..last] + [order[last]];
  }

  lemma {:induction false} SameCount(order: seq<nat>, pages: map<nat, Node>)
    requires NoRepeats(order) && forall id :: id in order <==> id in pages
    ensures |pages| == |order|
    decreases |order|
  {
    if order == [] {
      assert pages == map[];
    } else {
      var last := |order| - 1;
      DroppedLast(order);
      SameCount(order[..last], pages - {order[last]});
      assert pages.Keys == (pages - {order[last]}).Keys + {order[last]};
      assert |pages| == |pages.Keys| && |pages - {order[last]}| == |(pages - {order[last]}).Keys|;
    }
  }

  // ---- Pages in a file ----

  function PageAt(file: Bytes, id: nat): (page: Bytes)
    requires PAGE_SIZE * id + PAGE_SIZE <= |file|
    ensures |page| == PAGE_SIZE
  {
    file[PAGE_SIZE * id..PAGE_SIZE * id + PAGE_SIZE]
  }

  /** Page `id` of the file holds `node`. */
  ghost predicate Holds(file: Bytes, id: nat, node: Node) {
    PAGE_SIZE * id + PAGE_SIZE <= |file| && Decode(PageAt(file, id)) == Decoded(node)
  }

  /** What a write of one page leaves of the file; a write beyond the end fills the gap
      with zeros. */
  function WithPage(file: Bytes, id: nat, page: Bytes): (r: Bytes)
    requires |page| == PAGE_SIZE
  {
    var off := PAGE_SIZE * id;
    if |file| < off then file + Zeros(off - |file|) + page
    else if |file| < off + PAGE_SIZE then file[..off] + page
    else file[..off] + page + file[off + PAGE_SIZE..]
  }

  lemma PageAfterWrite(file: Bytes, id: nat, page: Bytes, other: nat)
    requires |page| == PAGE_SIZE
    ensures PAGE_SIZE * id + PAGE_SIZE <= |WithPage(file, id, page)| && PageAt(WithPage(file, id, page), id) == page
    ensures other != id && PAGE_SIZE * other + PAGE_SIZE <= |file| ==>
              && PAGE_SIZE * other + PAGE_SIZE <= |WithPage(file, id, page)|
              && PageAt(WithPage(file, id, page), other) == PageAt(file, other)
  {
    var off, at := PAGE_SIZE * id, PAGE_SIZE * other;
    var file' := WithPage(file, id, page);
    if other != id && at + PAGE_SIZE <= |file| {
      assert at + PAGE_SIZE <= off || off + PAGE_SIZE <= at;
    }
  }

  /** The cached pages are the file's. */
  ghost predicate Coherent(file: Bytes, cached: map<nat, Node>) {
    forall id :: id in cached ==> Holds(file, id, cached[id])
  }

  /** After writing a node to its page and keeping it in the cache, cache and file agree
      exactly if the page could hold the whole node. */
  lemma WriteIsCoherentExactly(file: Bytes, cached: map<nat, Node>, cached': map<nat, Node>, id: nat, node: Node)
    requires Coherent(file, cached) && Fits(node)
    requires id in cached' && cached'[id] == node
    requires forall other :: other in cached' && other != id ==> other in cached && cached'[other] == cached[other]
    ensures Coherent(WithPage(file, id, PageBytes(node)), cached') <==> Short(node)
  {
    hide Decode, PageBytes, WithPage, Fits;
    var page := PageBytes(node);
    RoundTripExactly(node);
    PageAfterWrite(file, id, page, id);
    forall other | other in cached' && other != id ensures Holds(WithPage(file, id, page), other, cached'[other]) {
      assert Holds(file, other, cached[other]);
      PageAfterWrite(file, id, page, other);
    }
    assert Holds(WithPage(file, id, page), id, cached'[id]) <==> Short(node);
  }

  datatype ReadResult = Page(node: Node) | Failed(unexpectedEof: bool)

  class PageFile {
    var file: Bytes
    const cache: PageCache

    ghost predicate Valid()
      reads this, cache
    {
      cache.Valid() && Coherent(file, cache.pages)
    }

    constructor (file: Bytes, capacity: nat)
      ensures Valid() && fresh(cache) && this.file == file && cache.capacity == capacity && cache.pages == map[]
    {
      this.file := file;
      cache := new PageCache(capacity);
    }

    /** The page as the file has it, whatever the cache keeps and has dropped. */
    method ReadPage(id: nat) returns (r: ReadResult)
      requires Valid()
      modifies cache
      ensures Valid()
      ensures r == if PAGE_SIZE * id + PAGE_SIZE > |file| then Failed(true)
                   else match Decode(PageAt(file, id))
                        case Decoded(node) => Page(node)
                        case _ => Failed(false)
    {
      hide Decode, PageAt;
      var cached := cache.Get(id);
      if cached.Some? {
        assert Holds(file, id, cache.pages[id]);
        return Page(cached.value);
      }
      if PAGE_SIZE * id + PAGE_SIZE > |file| { return Failed(true); }
      var buf := file[PAGE_SIZE * id..PAGE_SIZE * id + PAGE_SIZE];
      PageIs(file, id);
      var decoded := DecodePage(buf);
      if !decoded.Decoded? { return Failed(false); }
      cache.Insert(id, decoded.node);
      r := Page(decoded.node);
    }

    lemma PageIs(file: Bytes, id: nat)
      requires PAGE_SIZE * id + PAGE_SIZE <= |file|
      ensures PageAt(file, id) == file[PAGE_SIZE * id..PAGE_SIZE * id + PAGE_SIZE]
    {
    }

    /** Write through: the file at once, and the cache. */
    method WritePage(id: nat, node: Node)
      requires Valid() && Fits(node)
      modifies this, cache
      ensures file == WithPage(old(file), id, PageBytes(node))
      ensures cache.Valid() && id in cache.pages && cache.pages[id] == node
      ensures Valid() <==> Short(node)
    {
      hide PageBytes, WithPage, Coherent;
      var buf := EncodePage(node);
      file := WithPage(file, id, buf[..]);
      ghost var before := cache.pages;
      cache.Insert(id, node);
      WriteIsCoherentExactly(old(file), before, cache.pages, id, node);
    }
  }
}
