/** The B+tree of order 16 on the pages of a file. */
module PagedBTrees {
  import opened ByteStrings
  import opened Options
  import opened SortedEntries
  import opened LittleEndian
  import opened BTreeShape
  import opened BTreeParts
  import opened BTreeLeaf
  import opened BTreeChain
  import opened BTreeGrowth
  import opened BTreeQueries
  import opened PageFormat
  import opened PageCaching

  /** On pages, a node has at most 15 keys, a full leaf keeps seven of them, and every
      backward link is kept up to date. */
  const PAGED: Design := Parameters(16, 7, false)

  const CACHE_CAPACITY: nat := 64

  /** A node that its page can hold whole. */
  predicate Storable(n: Node) {
    Fits(n) && Short(n)
  }

  /** The pages of the file are `nodes`. */
  ghost predicate OnPages(file: Bytes, nodes: seq<Node>) {
    && |file| == PAGE_SIZE * |nodes|
    && forall i :: 0 <= i < |nodes| ==> Storable(nodes[i]) && Holds(file, i, nodes[i])
  }

  function PutAt(nodes: seq<Node>, id: nat, node: Node): seq<Node>
    requires id <= |nodes|
  {
    if id < |nodes| then nodes[id := node] else nodes + [node]
  }

  lemma PageWritten(file: Bytes, nodes: seq<Node>, id: nat, node: Node)
    requires OnPages(file, nodes) && id <= |nodes| && Storable(node)
    ensures OnPages(WithPage(file, id, PageBytes(node)), PutAt(nodes, id, node))
  {
    hide Decode, PageBytes, Fits, Short, PageAt;
    var page := PageBytes(node);
    var file', nodes' := WithPage(file, id, page), PutAt(nodes, id, node);
    RoundTripExactly(node);
    PageAfterWrite(file, id, page, id);
    forall i | 0 <= i < |nodes'| ensures Storable(nodes'[i]) && Holds(file', i, nodes'[i]) {
      PageAfterWrite(file, id, page, i);
      assert i != id ==> Holds(file, i, nodes[i]);
    }
  }

  // ---- What a split writes ----

  function LowerHalf(leaf: Node, rightId: nat): Node
    requires leaf.Leaf? && PAGED.mid <= |leaf.keys| == |leaf.values|
  {
    Leaf(leaf.keys[..PAGED.mid], leaf.values[..PAGED.mid], leaf.prev, Some(rightId))
  }

  function UpperHalf(leaf: Node, leafId: nat): Node
    requires leaf.Leaf? && PAGED.mid <= |leaf.keys| == |leaf.values|
  {
    Leaf(leaf.keys[PAGED.mid..], leaf.values[PAGED.mid..], Some(leafId), leaf.next)
  }

  lemma HalvesStorable(leaf: Node, leafId: nat, rightId: nat)
    requires leaf.Leaf? && PAGED.mid <= |leaf.keys| == |leaf.values| && Storable(leaf)
    requires leafId < NULL_PAGE && rightId < NULL_PAGE
    ensures Storable(LowerHalf(leaf, rightId)) && Storable(UpperHalf(leaf, leafId))
  {
  }

  lemma WithKeyStorable(leaf: Node, key: Bytes, value: Bytes)
    requires leaf.Leaf? && Storable(leaf) && |leaf.keys| < ORDER - 1 && |key| <= KEY_MAX && |value| <= VAL_MAX
    ensures Storable(WithKey(leaf, key, value))
  {
  }

  lemma WithoutKeyStorable(leaf: Node, pos: nat)
    requires leaf.Leaf? && Storable(leaf) && pos < |leaf.keys|
    ensures Storable(WithoutKey(leaf, pos))
  {
  }

  lemma RelinkedStorable(leaf: Node, prev: nat)
    requires leaf.Leaf? && Storable(leaf) && prev < NULL_PAGE
    ensures Storable(leaf.(prev := Some(prev)))
  {
  }

  /** When the right half goes to a page behind all others, the writes of a split are the
      split of the arena. */
  lemma SplitIsLeafSplit(nodes: seq<Node>, leafId: nat)
    requires leafId < |nodes| && nodes[leafId].Leaf? && PAGED.mid <= |nodes[leafId].keys| == |nodes[leafId].values|
    requires nodes[leafId].next.Some? ==>
               var next := nodes[leafId].next.value; next < |nodes| && next != leafId && nodes[next].Leaf?
    ensures var leaf, r := nodes[leafId], |nodes|;
            var relinked := if leaf.next.Some? then nodes[leaf.next.value := nodes[leaf.next.value].(prev := Some(r))] else nodes;
            LeafSplit(PAGED, nodes, leafId) == relinked[leafId := LowerHalf(leaf, r)] + [UpperHalf(leaf, leafId)]
  {
  }

  class PagedBTree {
    const store: PageFile
    var nextPageId: nat

    /** What the pages hold. */
    ghost var nodes: seq<Node>
    ghost var tree: Tree
    ghost var height: nat

    /** The file and its cache hold the nodes. */
    ghost predicate Backed()
      reads this, store, store.cache
    {
      store.Valid() && OnPages(store.file, nodes)
    }

    ghost function FirstLeaf(): nat
      reads this
    {
      if tree.Tip? then 0 else 2
    }

    /** New pages go behind all others, except in the session that created the file: there
        the first new page would be page 0 again. */
    ghost predicate Appending()
      reads this
    {
      nextPageId == |nodes|
    }

    ghost predicate Valid()
      reads this, store, store.cache
    {
      && Backed()
      && WellFormed(PAGED, nodes, FirstLeaf(), tree, height)
      && (Appending() || (tree.Tip? && nextPageId == 0))
    }

    ghost function Contents(): seq<Entry<Bytes>>
      reads this
    {
      Items(tree)
    }

    ghost function Model(): map<Bytes, Bytes>
      reads this
    {
      Content(Contents())
    }

    // ---- Opening ----

    /** Create a file: the root is written to page 0, but no page counts as allocated. */
    constructor Create(file: Bytes)
      requires |file| < PAGE_SIZE
      ensures Valid() && fresh(store) && fresh(store.cache)
      ensures nextPageId == 0 && nodes == [Leaf([], [], None, None)] && Contents() == [] && Model() == map[]
    {
      store := new PageFile(file, CACHE_CAPACITY);
      nextPageId := 0;
      nodes := [Leaf([], [], None, None)];
      tree, height := Tip(0, [], []), 0;
      new;
      store.WritePage(0, Leaf([], [], None, None));
      assert Storable(Leaf([], [], None, None));
      EmptyTree(store.file, file);
    }

    /** Open a file that holds a tree: everything written before is there again. */
    constructor Open(file: Bytes, ghost nodes: seq<Node>, ghost tree: Tree, ghost height: nat)
      requires OnPages(file, nodes) && WellFormed(PAGED, nodes, if tree.Tip? then 0 else 2, tree, height)
      ensures Valid() && fresh(store) && fresh(store.cache)
      ensures Appending() && this.nodes == nodes && this.tree == tree && this.height == height && store.file == file
      ensures Contents() == Items(tree)
    {
      store := new PageFile(file, CACHE_CAPACITY);
      nextPageId := |file| / PAGE_SIZE;
      this.nodes, this.tree, this.height := nodes, tree, height;
    }

    // ---- Pages ----

    method AllocatePage() returns (id: nat)
      modifies this`nextPageId
      ensures id == old(nextPageId) && nextPageId == id + 1
    {
      id := nextPageId;
      nextPageId := nextPageId + 1;
    }

    method ReadNode(id: nat) returns (node: Node)
      requires Backed() && id < |nodes|
      modifies store.cache
      ensures Backed() && node == nodes[id]
    {
      hide Decode, PageAt;
      assert Holds(store.file, id, nodes[id]);
      var r := store.ReadPage(id);
      node := r.node;
    }

    method WriteNode(id: nat, node: Node)
      requires Backed() && id <= |nodes| && Storable(node)
      modifies this`nodes, store, store.cache
      ensures Backed() && nodes == PutAt(old(nodes), id, node)
    {
      hide OnPages, WithPage, PageBytes;
      PageWritten(store.file, nodes, id, node);
      store.WritePage(id, node);
      nodes := PutAt(nodes, id, node);
    }

    // ---- Searching ----

    /** The page of the leaf that covers `key`; ghost `p` is its place in the leaf list. */
    method FindLeaf(key: Bytes) returns (leafId: nat, ghost p: nat)
      requires Valid()
      modifies store.cache
      ensures Valid()
      ensures CoversKey(PAGED, nodes, LeafIds(tree), p, key) && leafId == LeafIds(tree)[p]
    {
      hide WellFormed, OnPages, Covering, CoversKey;
      leafId := 0;
      ghost var ids := LeafIds(tree);
      ghost var d := Descent(tree, height, None, None, None, None, [], []);
      SearchStarts(PAGED, nodes, FirstLeaf(), tree, height, key);
      RootNode(PAGED, nodes, ids, key, d);
      while true
        invariant Valid() && d.t.id == leafId < |nodes|
        invariant nodes[leafId].Internal? == d.t.Branch?
        invariant Covering(PAGED, nodes, ids, key, d)
        decreases d.h
      {
        var node := ReadNode(leafId);
        match node {
          case Leaf(_, _, _, _) =>
            p := |d.left|;
            CoveringLeaf(PAGED, nodes, ids, key, d);
            return;
          case Internal(keys, children) =>
            var pos := CountAtMost(keys, key);
            d := CoveringStep(PAGED, nodes, ids, key, d);
            RootNode(PAGED, nodes, ids, key, d);
            leafId := children[pos];
        }
      }
    }

    method Get(key: Bytes) returns (r: Option<Bytes>)
      requires Valid()
      modifies store.cache
      ensures Valid()
      ensures r == if key in Model() then Some(Model()[key]) else None
    {
      hide WellFormed, OnPages;
      var leafId, p := FindLeaf(key);
      var leaf := ReadNode(leafId);
      ContentsAround(PAGED, nodes, FirstLeaf(), tree, height, key, p);
      LeafRemoval(leaf.keys, leaf.values, key);
      LookupIsContent(Contents(), key);
      var pos := Search(leaf.keys, key);
      match pos {
        case Some(i) => r := Some(leaf.values[i]);
        case None => r := None;
      }
    }

    /** Lazy deletion: the leaf may stay behind empty. */
    method Delete(key: Bytes) returns (existed: bool)
      requires Valid()
      modifies this, store, store.cache
      ensures Valid() && nextPageId == old(nextPageId) && |nodes| == |old(nodes)|
      ensures existed == (key in old(Model()))
      ensures Contents() == Remove(old(Contents()), key)
      ensures Model() == old(Model()) - {key}
    {
      hide OnPages, WellFormed, Remove, Content, Redo, Storable;
      var leafId, p := FindLeaf(key);
      var leaf := ReadNode(leafId);
      ContentsAround(PAGED, nodes, FirstLeaf(), tree, height, key, p);
      LeafRemoval(leaf.keys, leaf.values, key);
      RemovalInModel(PAGED, nodes, FirstLeaf(), tree, height, key);
      var pos := Search(leaf.keys, key);
      match pos {
        case Some(i) =>
          TreeRemoved(PAGED, nodes, FirstLeaf(), tree, height, key, p);
          NodeStorable(store.file, nodes, leafId);
          WithoutKeyStorable(leaf, i);
          WriteNode(leafId, WithoutKey(leaf, i));
          tree := Redo(tree, leafId, nodes[leafId].keys, nodes[leafId].values);
          existed := true;
        case None =>
          existed := false;
      }
    }

    /** All entries with keys from `start` to `end`, by walking the leaf list. */
    method Range(start: Bytes, end: Bytes) returns (result: seq<Entry<Bytes>>)
      requires Valid()
      modifies store.cache
      ensures Valid()
      ensures result == Between(Contents(), start, end)
      ensures Sorted(result)
      ensures forall e :: e in result <==>
                e.key in Model() && Model()[e.key] == e.value && AtMost(start, e.key) && AtMost(e.key, end)
    {
      hide WellFormed, OnPages, CoversKey, Between, Content, Items, LeafIds, ChainItems, NodeItems, Zip, ScannedTo, Sorted, AtMost;
      var leafId, p := FindLeaf(start);
      ghost var ids := LeafIds(tree);
      RangeView(PAGED, nodes, FirstLeaf(), tree, height, start, end, p);
      PlaceInList(PAGED, nodes, ids, p, start);
      result := [];
      while true
        invariant Valid() && p < |ids| && leafId == ids[p]
        invariant result == Between(ChainItems(nodes, ids[..p]), start, end)
        decreases |ids| - p
      {
        LeafAt(PAGED, nodes, FirstLeaf(), tree, height, p);
        var leaf := ReadNode(leafId);
        var found, past, n := ScanLeaf(leaf, start, end);
        RangeLeaf(PAGED, nodes, FirstLeaf(), tree, height, start, end, p, n, found, past);
        result := result + found;
        if past {
          return;
        }
        match leaf.next {
          case Some(next) =>
            leafId := next;
            p := p + 1;
          case None =>
            return;
        }
      }
    }

    // ---- Inserting ----

    /** Whether inserting `key` leaves the tree a tree: always, but in the session that
        created the file only while no leaf has to be split. */
    ghost predicate StaysWhole(key: Bytes)
      reads this
    {
      Appending() || (nodes != [] && (|nodes[0].keys| < ORDER - 1 || key in nodes[0].keys))
    }

    /** Insert or overwrite. */
    method Insert(key: Bytes, value: Bytes)
      requires Valid() && |key| <= KEY_MAX && |value| <= VAL_MAX
      requires 2 * |nodes| + 2 < NULL_PAGE
      modifies this, store, store.cache
      ensures old(StaysWhole(key)) ==>
                && Valid() && (old(Appending()) <==> Appending())
                && Contents() == Put(old(Contents()), key, value)
                && Model() == old(Model())[key := value]
      ensures !old(StaysWhole(key)) ==> RootLost(old(nodes[0]), nodes)
    {
      hide WellFormed, Part, Inserted, Items, ItemsOf, LeafIdsOf, Put, Content, OnPages, Storable, Moved;
      InsertionInModel(PAGED, nodes, FirstLeaf(), tree, height, key, value);
      RootPart(PAGED, nodes, FirstLeaf(), tree, height);
      HeightBound(nodes, FirstLeaf(), tree, height);
      var split, ts, seps := InsertRecursive(0, key, value, tree, height, None, None, None, None);
      match split {
        case Some((promotedKey, rightId)) =>
          ghost var grown := nodes;
          if old(Appending()) {
            RootGrown(PAGED, old(nodes), nodes, FirstLeaf(), tree, height, ts, seps, key, value);
            SplitRoot(old(nodes), nodes, tree, ts, seps, height, key, value);
            MovedWrites(nodes, promotedKey, rightId);
          }
          var oldRoot := ReadNode(0);
          var oldRootId := AllocatePage();
          NodeStorable(store.file, nodes, 0);
          if oldRoot.Leaf? && oldRoot.next.Some? {
            var sibling := ReadNode(oldRoot.next.value);
            NodeStorable(store.file, nodes, oldRoot.next.value);
            RelinkedStorable(sibling, oldRootId);
            WriteNode(oldRoot.next.value, sibling.(prev := Some(oldRootId)));
          }
          WriteNode(oldRootId, oldRoot);
          RootStorable(promotedKey, oldRootId, rightId);
          WriteNode(0, Internal([promotedKey], [oldRootId, rightId]));
          if old(Appending()) {
            tree, height := NewRoot(ts, seps, oldRootId), height + 1;
          }
        case None =>
          RootKept(PAGED, old(nodes), nodes, FirstLeaf(), tree, height, ts, key, value);
          tree := ts[0];
      }
    }

    /** Insert below page `pageId`. The ghost results describe what stands there now: the
        same subtree changed, or two subtrees with the promoted key between them. */
    method InsertRecursive(pageId: nat, key: Bytes, value: Bytes, ghost t: Tree, ghost h: nat,
                           ghost low: Option<Bytes>, ghost high: Option<Bytes>, ghost before: Option<nat>, ghost after: Option<nat>)
      returns (split: Option<(Bytes, nat)>, ghost ts: seq<Tree>, ghost seps: seq<Bytes>)
      requires Backed() && Part(PAGED, nodes, [t], [], h, low, high, before, after)
      requires t.id == pageId && InRange(key, low, high) && |nodes| != 2
      requires Appending() || (t.Tip? && pageId == 0 && |nodes| == 1 && nextPageId == 0)
      requires |key| <= KEY_MAX && |value| <= VAL_MAX && |nodes| + h + 1 < NULL_PAGE
      modifies this`nodes, this`nextPageId, store, store.cache
      ensures Backed() && |old(nodes)| <= |nodes| <= |old(nodes)| + h + 1
      ensures split.Some? ==> |split.value.0| <= KEY_MAX && split.value.1 < |nodes|
      ensures old(Appending()) ==> Appending()
      ensures old(Appending()) || split.None? ==>
                && Inserted(PAGED, old(nodes), nodes, t, ts, seps, h, low, high, before, after, key, value)
                && |ts| == |seps| + 1 && |seps| <= 1
                && split == SplitOf(ts, seps)
                && ts[0].Tip? == t.Tip?
                && (t.Tip? ==> |nodes| == |old(nodes)| + |seps|)
                && (t.Tip? && seps != [] ==> LeafIdsOf(ts) == [t.id, |old(nodes)|])
      ensures !old(Appending()) ==>
                && (split.Some? <==> !old(StaysWhole(key)))
                && (split.None? ==> nextPageId == 0)
                && (split.Some? ==> HalfLost(old(nodes[0]), nodes) && split.value.1 == 0 && nextPageId == 1)
      decreases h
    {
      hide Part, Inserted, Framed, Grown, Ascended, Items, ItemsOf, Ids, IdsOf, LeafIds, LeafIdsOf, Put, OnPages, Storable;
      RootOf(PAGED, nodes, t, h, low, high, before, after);
      var node := ReadNode(pageId);
      match node {
        case Leaf(_, _, _, _) =>
          split, ts, seps := LeafInsert(pageId, node, key, value, t, low, high, before, after);
        case Internal(nodeKeys, children) =>
          var childPos := CountAtMost(nodeKeys, key);
          Unwrap(PAGED, nodes, t, h, low, high, before, after);
          ChildCovers(nodeKeys, key, low, high);
          Descend(PAGED, nodes, t.kids, t.keys, h - 1, low, high, before, after, childPos);
          ghost var l, r := LeafIdsOf(t.kids[..childPos]), LeafIdsOf(t.kids[childPos + 1..]);
          var childSplit, us, useps := InsertRecursive(children[childPos], key, value, t.kids[childPos], h - 1,
            LowOf(t.keys, low, childPos), HighOf(t.keys, high, childPos), BeforeOf(l, before), AfterOf(r, after));
          ghost var kids, keys := Spliced(t.kids, childPos, us), SplicedKeys(t.keys, childPos, useps);
          BranchAscended(PAGED, old(nodes), nodes, t, h - 1, low, high, before, after, childPos, us, useps, key, value);
          SplicedPair(t.kids, t.keys, childPos, us, useps);
          ghost var ascended := nodes;
          match childSplit {
            case Some((promotedKey, newRightId)) =>
              split := InternalAbsorbSplit(pageId, node, childPos, promotedKey, newRightId);
            case None =>
              split := None;
          }
          ts, seps := BranchStored(PAGED, old(nodes), ascended, nodes, t, kids, keys, h - 1, low, high, before, after, key, value);
      }
    }

    /** Insert into a leaf, splitting it first when it is full. */
    method LeafInsert(leafId: nat, leaf: Node, key: Bytes, value: Bytes, ghost t: Tree,
                      ghost low: Option<Bytes>, ghost high: Option<Bytes>, ghost before: Option<nat>, ghost after: Option<nat>)
      returns (split: Option<(Bytes, nat)>, ghost ts: seq<Tree>, ghost seps: seq<Bytes>)
      requires Backed() && t.Tip? && Part(PAGED, nodes, [t], [], 0, low, high, before, after)
      requires t.id == leafId < |nodes| && leaf == nodes[leafId] && InRange(key, low, high) && |nodes| != 2
      requires Appending() || (leafId == 0 && |nodes| == 1 && nextPageId == 0)
      requires |key| <= KEY_MAX && |value| <= VAL_MAX && |nodes| + 1 < NULL_PAGE
      modifies this`nodes, this`nextPageId, store, store.cache
      ensures Backed() && |old(nodes)| <= |nodes| <= |old(nodes)| + 1
      ensures split.Some? ==> |split.value.0| <= KEY_MAX && split.value.1 < |nodes|
      ensures old(Appending()) ==> Appending()
      ensures old(Appending()) || split.None? ==>
                && Inserted(PAGED, old(nodes), nodes, t, ts, seps, 0, low, high, before, after, key, value)
                && |ts| == |seps| + 1 && |seps| <= 1
                && split == SplitOf(ts, seps)
                && ts[0].Tip?
                && |nodes| == |old(nodes)| + |seps|
                && (seps != [] ==> LeafIdsOf(ts) == [t.id, |old(nodes)|])
      ensures !old(Appending()) ==>
                && (split.Some? <==> !old(StaysWhole(key)))
                && (split.None? ==> nextPageId == 0)
                && (split.Some? ==> HalfLost(old(nodes[0]), nodes) && split.value.1 == 0 && nextPageId == 1)
    {
      hide Part, Inserted, Framed, Grown, Items, ItemsOf, IdsOf, LeafIdsOf, Put, OrderedKeys, OnPages, Storable, Search, LeafSplit, HalfLost, FollowedBy;
      TipFacts(PAGED, nodes, t, low, high, before, after);
      NodeStorable(store.file, nodes, leafId);
      var pos := Search(leaf.keys, key);
      match pos {
        case Some(i) =>
          OverwrittenStorable(leaf, i, value);
          WriteNode(leafId, leaf.(values := leaf.values[i := value]));
          ghost var t' := TipOverwritten(PAGED, old(nodes), nodes, t, low, high, before, after, key, value);
          split, ts, seps := None, [t'], [];
          return;
        case None =>
      }
      if |leaf.keys| >= ORDER - 1 {
        NeighbourOf(PAGED, nodes, t, low, high, before, after);
        var promotedKey, right, rightId := SplitLeafNode(leafId, leaf);
        ghost var halved := nodes;
        var left := ReadNode(leafId);
        var target := if AtMost(promotedKey, key) then right else left;
        var targetId := if AtMost(promotedKey, key) then rightId else leafId;
        NodeStorable(store.file, nodes, targetId);
        WithKeyStorable(target, key, value);
        var pos := CountBelow(target.keys, key);
        WriteNode(targetId, target.(keys := InsertAt(target.keys, pos, key), values := InsertAt(target.values, pos, value)));
        split := Some((promotedKey, rightId));
        if old(Appending()) {
          ts, seps := InsertedInHalf(old(nodes), halved, nodes, t, low, high, before, after, key, value);
        } else {
          UpperHalfLost(t, leaf, nodes, low, high, key, value);
          ts, seps := [], [];
        }
      } else {
        WithKeyStorable(leaf, key, value);
        var pos := CountBelow(leaf.keys, key);
        WriteNode(leafId, leaf.(keys := InsertAt(leaf.keys, pos, key), values := InsertAt(leaf.values, pos, value)));
        ghost var t' := TipInserted(PAGED, old(nodes), nodes, t, low, high, before, after, key, value);
        split, ts, seps := None, [t'], [];
      }
    }

    /** Move the upper half of a full leaf to a new page and relink its neighbours. */
    method SplitLeafNode(leafId: nat, leaf: Node) returns (promoted: Bytes, right: Node, rightId: nat)
      requires Backed() && leafId < |nodes| && leaf == nodes[leafId] && leaf.Leaf? && |leaf.keys| == |leaf.values| == ORDER - 1
      requires leaf.next.Some? ==> leaf.next.value < |nodes| && leaf.next.value != leafId && nodes[leaf.next.value].Leaf?
      requires Appending() || (leafId == 0 && |nodes| == 1 && nextPageId == 0)
      requires |nodes| + 1 < NULL_PAGE
      modifies this`nodes, this`nextPageId, store, store.cache
      ensures Backed() && rightId == old(nextPageId) && nextPageId == rightId + 1
      ensures promoted == leaf.keys[PAGED.mid] && |promoted| <= KEY_MAX && right == UpperHalf(leaf, leafId)
      ensures if old(Appending())
              then nodes == LeafSplit(PAGED, old(nodes), leafId) && |nodes| == |old(nodes)| + 1
                   && nodes[leafId] == LowerHalf(leaf, rightId) && nodes[rightId] == right
              else nodes == [right]
    {
      hide OnPages, Storable, LeafSplit;
      NodeStorable(store.file, nodes, leafId);
      SplitIsLeafSplit(nodes, leafId);
      PromotedFits(leaf);
      var mid := |leaf.keys| / 2;
      var rightKeys, rightValues := leaf.keys[mid..], leaf.values[mid..];
      promoted := rightKeys[0];
      var oldNext := leaf.next;
      rightId := AllocatePage();
      right := Leaf(rightKeys, rightValues, Some(leafId), oldNext);
      var left := Leaf(leaf.keys[..mid], leaf.values[..mid], leaf.prev, Some(rightId));
      HalvesStorable(leaf, leafId, rightId);
      if oldNext.Some? {
        var oldNextNode := ReadNode(oldNext.value);
        NodeStorable(store.file, nodes, oldNext.value);
        RelinkedStorable(oldNextNode, rightId);
        WriteNode(oldNext.value, oldNextNode.(prev := Some(rightId)));
      }
      WriteNode(leafId, left);
      WriteNode(rightId, right);
    }

    /** Take up a child's split, splitting this node too when it is full. */
    method InternalAbsorbSplit(nodeId: nat, n: Node, childPos: nat, promotedKey: Bytes, newRightId: nat)
      returns (split: Option<(Bytes, nat)>)
      requires Backed() && Appending() && nodeId < |nodes| && n == nodes[nodeId] && n.Internal?
      requires childPos <= |n.keys| < ORDER && |n.children| == |n.keys| + 1
      requires |promotedKey| <= KEY_MAX && newRightId < |nodes| && |nodes| + 1 < NULL_PAGE
      modifies this`nodes, this`nextPageId, store, store.cache
      ensures Backed() && Appending() && |nodes| <= |old(nodes)| + 1
      ensures var keys, children := InsertAt(n.keys, childPos, promotedKey), InsertAt(n.children, childPos + 1, newRightId);
              nodes == Stored(PAGED, old(nodes), nodeId, keys, children) && split == StoredSplit(PAGED, old(nodes), keys)
      ensures split.Some? ==> |split.value.0| <= KEY_MAX && split.value.1 < |nodes|
    {
      hide OnPages;
      NodeStorable(store.file, nodes, nodeId);
      if |n.keys| >= ORDER - 1 {
        var newPromoted, rightId := SplitInternalNode(nodeId, n, childPos, promotedKey, newRightId);
        split := Some((newPromoted, rightId));
      } else {
        WriteNode(nodeId, Internal(InsertAt(n.keys, childPos, promotedKey), InsertAt(n.children, childPos + 1, newRightId)));
        split := None;
      }
    }

    method SplitInternalNode(nodeId: nat, n: Node, childPos: nat, incomingKey: Bytes, incomingRight: nat)
      returns (promoted: Bytes, rightId: nat)
      requires Backed() && Appending() && nodeId < |nodes| && n == nodes[nodeId] && n.Internal?
      requires childPos <= |n.keys| == ORDER - 1 && |n.children| == |n.keys| + 1
      requires |incomingKey| <= KEY_MAX && incomingRight < |nodes| && |nodes| + 1 < NULL_PAGE
      modifies this`nodes, this`nextPageId, store, store.cache
      ensures Backed() && Appending() && |nodes| == |old(nodes)| + 1
      ensures var keys, children := InsertAt(n.keys, childPos, incomingKey), InsertAt(n.children, childPos + 1, incomingRight);
              nodes == Stored(PAGED, old(nodes), nodeId, keys, children) && Some((promoted, rightId)) == StoredSplit(PAGED, old(nodes), keys)
      ensures |promoted| <= KEY_MAX && rightId < |nodes|
    {
      hide OnPages, Storable;
      NodeStorable(store.file, nodes, nodeId);
      var allKeys := InsertAt(n.keys, childPos, incomingKey);
      var allChildren := InsertAt(n.children, childPos + 1, incomingRight);
      ExtendedStorable(n, childPos, incomingKey, incomingRight);
      var mid := |allKeys| / 2;
      promoted := allKeys[mid];
      rightId := AllocatePage();
      WriteNode(nodeId, Internal(allKeys[..mid], allChildren[..mid + 1]));
      WriteNode(rightId, Internal(allKeys[mid + 1..], allChildren[mid + 1..]));
    }
  }

  /** Opening the file again gives the same tree, and new pages then go behind all
      others. */
  method Reopen(t: PagedBTree) returns (again: PagedBTree)
    requires t.Valid()
    ensures fresh(again) && fresh(again.store) && fresh(again.store.cache) && again.Valid() && again.Appending()
    ensures again.nodes == t.nodes && again.Contents() == t.Contents() && again.Model() == t.Model()
  {
    hide OnPages, WellFormed;
    again := new PagedBTree.Open(t.store.file, t.nodes, t.tree, t.height);
  }

  /** After the first split in the session that created the file, one half of the keys has
      overwritten the other on page 0. */
  ghost predicate HalfLost(oldRoot: Node, nodes: seq<Node>) {
    && |nodes| == 1 && nodes[0].Leaf? && nodes[0].next == None
    && oldRoot.keys != [] && oldRoot.keys[0] !in nodes[0].keys
  }

  /** And then the root is its own child, and the smallest key is on no page. */
  ghost predicate RootLost(oldRoot: Node, nodes: seq<Node>) {
    && |nodes| == 2 && nodes[0].Internal? && nodes[0].children == [1, 0]
    && nodes[1].Leaf? && oldRoot.keys != [] && oldRoot.keys[0] !in nodes[1].keys
  }

  lemma OverwrittenStorable(leaf: Node, i: nat, value: Bytes)
    requires leaf.Leaf? && Storable(leaf) && i < |leaf.values| && |value| <= VAL_MAX
    ensures Storable(leaf.(values := leaf.values[i := value]))
  {
  }

  lemma PromotedFits(leaf: Node)
    requires Storable(leaf) && PAGED.mid < |leaf.keys|
    ensures |leaf.keys[PAGED.mid]| <= KEY_MAX
  {
  }

  lemma RootStorable(key: Bytes, left: nat, right: nat)
    requires |key| <= KEY_MAX && left < TWO_TO_THE_32 && right < TWO_TO_THE_32
    ensures Storable(Internal([key], [left, right]))
  {
  }

  lemma ExtendedStorable(n: Node, childPos: nat, key: Bytes, right: nat)
    requires n.Internal? && Storable(n) && childPos <= |n.keys| == ORDER - 1 && |key| <= KEY_MAX && right < TWO_TO_THE_32
    ensures var keys, children := InsertAt(n.keys, childPos, key), InsertAt(n.children, childPos + 1, right);
            var mid := |keys| / 2;
            && |children| == |keys| + 1 == ORDER + 1 && |keys[mid]| <= KEY_MAX
            && Storable(Internal(keys[..mid], children[..mid + 1])) && Storable(Internal(keys[mid + 1..], children[mid + 1..]))
  {
    var keys, children := InsertAt(n.keys, childPos, key), InsertAt(n.children, childPos + 1, right);
    assert AllWithin(keys, KEY_MAX);
    assert forall i :: 0 <= i < |children| ==> children[i] < TWO_TO_THE_32;
  }

  /** The leaf behind a leaf is another leaf. */
  lemma NeighbourOf(design: Design, nodes: seq<Node>, t: Tree, low: Option<Bytes>, high: Option<Bytes>, before: Option<nat>, after: Option<nat>)
    requires t.Tip? && Part(design, nodes, [t], [], 0, low, high, before, after)
    ensures t.id < |nodes| && nodes[t.id].Leaf? && nodes[t.id].next == after
    ensures after.Some? ==> after.value < |nodes| && after.value != t.id && nodes[after.value].Leaf?
  {
    TipFacts(design, nodes, t, low, high, before, after);
  }

  lemma InsertedInHalf(nodes: seq<Node>, halved: seq<Node>, nodes': seq<Node>, t: Tree,
                       low: Option<Bytes>, high: Option<Bytes>, before: Option<nat>, after: Option<nat>, key: Bytes, value: Bytes)
    returns (ts: seq<Tree>, seps: seq<Bytes>)
    requires t.Tip? && Part(PAGED, nodes, [t], [], 0, low, high, before, after)
    requires |t.keys| == |t.values| == ORDER - 1 && |nodes| != 2 && InRange(key, low, high) && key !in t.keys
    requires t.id < |nodes| && nodes[t.id].Leaf? && nodes[t.id].keys == t.keys && nodes[t.id].values == t.values
    requires after == nodes[t.id].next && (after.Some? ==> after.value < |nodes| && nodes[after.value].Leaf?)
    requires halved == LeafSplit(PAGED, nodes, t.id)
    requires var target := if AtMost(t.keys[PAGED.mid], key) then |nodes| else t.id;
             && target < |halved| && halved[target].Leaf? && |halved[target].keys| == |halved[target].values|
             && nodes' == halved[target := WithKey(halved[target], key, value)]
    ensures Inserted(PAGED, nodes, nodes', t, ts, seps, 0, low, high, before, after, key, value)
    ensures seps == [t.keys[PAGED.mid]] && |ts| == 2 && ts[0].Tip? && ts[1].id == |nodes|
    ensures LeafIdsOf(ts) == [t.id, |nodes|] && |nodes'| == |nodes| + 1
  {
    hide Part, Inserted, Framed, Grown, Items, ItemsOf, IdsOf, LeafIdsOf, Put, OrderedKeys, Search;
    TipFacts(PAGED, nodes, t, low, high, before, after);
    TipSplit(PAGED, nodes, t, low, high, before, after);
    var promoted := t.keys[PAGED.mid];
    var halves := TipHalves(PAGED, t, |nodes|);
    var p: nat := if AtMost(promoted, key) then 1 else 0;
    HalfChosen(PAGED, halved, t, |nodes|, low, high, before, after, key, p);
    ts := HalfInserted(PAGED, halved, nodes', t, |nodes|, low, high, before, after, key, value, p);
    seps := [promoted];
    InsertedAfterSplit(PAGED, nodes, halved, nodes', t, halves, ts, seps, low, high, before, after, key, value);
  }

  lemma UpperHalfLost(t: Tree, leaf: Node, nodes: seq<Node>, low: Option<Bytes>, high: Option<Bytes>, key: Bytes, value: Bytes)
    requires t.Tip? && Ordered(PAGED, t, 0, low, high) && leaf.Leaf? && leaf.keys == t.keys && leaf.values == t.values
    requires |leaf.keys| == ORDER - 1 && key !in leaf.keys && leaf.next == None
    requires |nodes| == 1 && nodes[0] == WithKey(UpperHalf(leaf, 0), key, value)
    ensures HalfLost(leaf, nodes)
  {
    LessIsStrictTotalOrder();
    var upper := UpperHalf(leaf, 0);
    forall i | 0 <= i < |upper.keys| ensures upper.keys[i] != leaf.keys[0] {
      assert Less(leaf.keys[0], leaf.keys[PAGED.mid + i]);
    }
  }

  /** What stands on the first pages after the root was split. */
  lemma SplitRoot(nodes: seq<Node>, nodes': seq<Node>, tree: Tree, ts: seq<Tree>, seps: seq<Bytes>, h: nat, key: Bytes, value: Bytes)
    requires Inserted(PAGED, nodes, nodes', tree, ts, seps, h, None, None, None, None, key, value)
    requires tree.id == 0 && |seps| == 1 && |ts| == 2
    requires ts[0].Tip? ==> LeafIdsOf(ts) == [0, 1] && |nodes'| == 2
    ensures 0 < |nodes'| && nodes'[0].Leaf? == ts[0].Tip?
    ensures ts[0].Tip? ==> nodes'[0].next == Some(1) && nodes'[1].Leaf?
  {
    assert ts == [ts[0], ts[1]];
    Pair(nodes', ts[0], ts[1]);
    if ts[0].Tip? {
      assert LinkedAt(PAGED, nodes', LeafIdsOf(ts), None, None, 0);
      assert LinkedAt(PAGED, nodes', LeafIdsOf(ts), None, None, 1);
    }
  }

  /** The writes that move the root. */
  lemma MovedWrites(nodes: seq<Node>, key: Bytes, rightId: nat)
    requires 0 < |nodes|
    requires nodes[0].Leaf? ==> nodes[0].next == Some(1) && |nodes| == 2 && nodes[1].Leaf?
    ensures var relinked := if nodes[0].Leaf? then nodes[1 := nodes[1].(prev := Some(|nodes|))] else nodes;
            Moved(PAGED, nodes, [key], rightId) == (relinked + [nodes[0]])[0 := Internal([key], [|nodes|, rightId])]
  {
  }

  lemma {:induction false} HeightOf(t: Tree, h: nat, low: Option<Bytes>, high: Option<Bytes>)
    requires Ordered(PAGED, t, h, low, high) && Distinct(t)
    ensures h < |Ids(t)|
    decreases t
  {
    if t.Branch? {
      var kid := t.kids[0];
      assert t.kids == [kid] + t.kids[1..];
      HeightOf(kid, h - 1, low, HighOf(t.keys, high, 0));
      assert Ids(kid) + {t.id} <= Ids(t);
      SubsetCount(Ids(kid) + {t.id}, Ids(t));
    }
  }

  lemma SubsetCount(a: set<nat>, b: set<nat>)
    requires a <= b
    ensures |a| <= |b|
  {
    assert b == a + (b - a);
  }

  function PageNumbers(n: nat): (s: set<nat>)
    ensures |s| == n && forall i :: i in s <==> 0 <= i < n
  {
    if n == 0 then {} else PageNumbers(n - 1) + {n - 1}
  }

  /** The tree is not higher than it has pages. */
  lemma HeightBound(nodes: seq<Node>, firstLeaf: nat, tree: Tree, height: nat)
    requires WellFormed(PAGED, nodes, firstLeaf, tree, height)
    ensures height < |nodes|
  {
    Single(nodes, tree);
    assert Ordered(PAGED, [tree][0], height, LowOf([], None, 0), HighOf([], None, 0));
    HeightOf(tree, height, None, None);
    assert Ids(tree) == PageNumbers(|nodes|);
  }

  lemma NodeStorable(file: Bytes, nodes: seq<Node>, id: nat)
    requires OnPages(file, nodes) && id < |nodes|
    ensures Storable(nodes[id])
  {
  }

  lemma PlaceInList(design: Design, nodes: seq<Node>, ids: seq<nat>, p: nat, key: Bytes)
    requires CoversKey(design, nodes, ids, p, key)
    ensures p < |ids|
  {
  }

  lemma EmptyTree(file: Bytes, before: Bytes)
    requires |before| < PAGE_SIZE
    requires file == WithPage(before, 0, PageBytes(Leaf([], [], None, None)))
    ensures OnPages(file, [Leaf([], [], None, None)])
    ensures WellFormed(PAGED, [Leaf([], [], None, None)], 0, Tip(0, [], []), 0)
    ensures Items(Tip(0, [], [])) == []
  {
    hide PageBytes, Decode, WellFormed;
    var root := Leaf([], [], None, None);
    assert Storable(root);
    RoundTripExactly(root);
    PageAfterWrite(before, 0, PageBytes(root), 0);
    EmptyTreeShape(root);
  }

  lemma EmptyTreeShape(root: Node)
    requires root == Leaf([], [], None, None)
    ensures WellFormed(PAGED, [root], 0, Tip(0, [], []), 0)
  {
    Single([root], Tip(0, [], []));
    assert Ordered(PAGED, Tip(0, [], []), 0, None, None);
    assert LinkedAt(PAGED, [root], [0], None, None, 0);
  }
}
