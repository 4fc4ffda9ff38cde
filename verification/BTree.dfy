/** The in-memory B+tree of order 4 over an arena of nodes. */
module BTrees {
  import opened ByteStrings
  import opened Options
  import opened SortedEntries
  import opened BTreeShape
  import opened BTreeParts
  import opened BTreeLeaf
  import opened BTreeChain
  import opened BTreeGrowth
  import opened BTreeQueries

  /** In memory, a node has at most three keys, and a full leaf keeps two of them. */
  const IN_MEMORY: Design := Parameters(4, 2, true)
  const ORDER: nat := 4

  class BTree {
    /** Slot 0 is always the root. */
    var nodes: seq<Node>
    var firstLeaf: nat

    ghost var tree: Tree
    ghost var height: nat

    ghost predicate Valid()
      reads this
    {
      WellFormed(IN_MEMORY, nodes, firstLeaf, tree, height)
    }

    /** Every entry of the tree, in key order. */
    ghost function Contents(): seq<Entry<Bytes>>
      reads this
    {
      Items(tree)
    }

    /** The map that the tree implements. */
    ghost function Model(): map<Bytes, Bytes>
      reads this
    {
      Content(Contents())
    }

    constructor ()
      ensures Valid()
      ensures Contents() == [] && Model() == map[]
    {
      nodes := [Leaf([], [], None, None)];
      firstLeaf := 0;
      tree := Tip(0, [], []);
      height := 0;
      new;
      Single(nodes, tree);
      assert Ordered(IN_MEMORY, tree, 0, None, None);
      assert LinkedAt(IN_MEMORY, nodes, [0], None, None, 0);
    }

    // ---- Searching ----

    /** The leaf that covers `key`; ghost `p` is its place in the leaf list. */
    method FindLeaf(key: Bytes) returns (leafIdx: nat, ghost p: nat)
      requires Valid()
      ensures CoversKey(IN_MEMORY, nodes, LeafIds(tree), p, key) && leafIdx == LeafIds(tree)[p]
    {
      leafIdx := 0;
      ghost var ids := LeafIds(tree);
      ghost var d := Descent(tree, height, None, None, None, None, [], []);
      RootNode(IN_MEMORY, nodes, ids, key, d);
      while nodes[leafIdx].Internal?
        invariant d.t.id == leafIdx < |nodes|
        invariant nodes[leafIdx].Internal? == d.t.Branch?
        invariant Covering(IN_MEMORY, nodes, ids, key, d)
        decreases d.h
      {
        var n := nodes[leafIdx];
        var pos := CountAtMost(n.keys, key);
        d := CoveringStep(IN_MEMORY, nodes, ids, key, d);
        RootNode(IN_MEMORY, nodes, ids, key, d);
        leafIdx := n.children[pos];
      }
      p := |d.left|;
      CoveringLeaf(IN_MEMORY, nodes, ids, key, d);
    }

    method Get(key: Bytes) returns (r: Option<Bytes>)
      requires Valid()
      ensures r == if key in Model() then Some(Model()[key]) else None
    {
      var leafIdx, p := FindLeaf(key);
      var leaf := nodes[leafIdx];
      ContentsAround(IN_MEMORY, nodes, firstLeaf, tree, height, key, p);
      LeafRemoval(leaf.keys, leaf.values, key);
      LookupIsContent(Contents(), key);
      var pos := Search(leaf.keys, key);
      match pos {
        case Some(i) => r := Some(leaf.values[i]);
        case None => r := None;
      }
    }

    /** Lazy deletion: the leaf may stay behind empty. */
    method Delete(key: Bytes) returns (existed: bool)
      requires Valid()
      modifies this
      ensures Valid()
      ensures existed == (key in old(Model()))
      ensures Contents() == Remove(old(Contents()), key)
      ensures Model() == old(Model()) - {key}
    {
      hide WellFormed, Remove, Content, Redo;
      var leafIdx, p := FindLeaf(key);
      var leaf := nodes[leafIdx];
      ContentsAround(IN_MEMORY, nodes, firstLeaf, tree, height, key, p);
      LeafRemoval(leaf.keys, leaf.values, key);
      RemovalInModel(IN_MEMORY, nodes, firstLeaf, tree, height, key);
      var pos := Search(leaf.keys, key);
      match pos {
        case Some(i) =>
          TreeRemoved(IN_MEMORY, nodes, firstLeaf, tree, height, key, p);
          nodes := nodes[leafIdx := WithoutKey(leaf, i)];
          tree := Redo(tree, leafIdx, nodes[leafIdx].keys, nodes[leafIdx].values);
          existed := true;
        case None =>
          existed := false;
      }
    }

    // ---- Inserting ----

    /** Insert or overwrite. */
    method Insert(key: Bytes, value: Bytes)
      requires Valid()
      modifies this
      ensures Valid()
      ensures Contents() == Put(old(Contents()), key, value)
      ensures Model() == old(Model())[key := value]
    {
      hide WellFormed, Part, Inserted, Items, ItemsOf, LeafIdsOf, Put, Content;
      InsertionInModel(IN_MEMORY, nodes, firstLeaf, tree, height, key, value);
      RootPart(IN_MEMORY, nodes, firstLeaf, tree, height);
      var split, ts, seps := InsertRecursive(0, key, value, tree, height, None, None, None, None);
      match split {
        case Some((midKey, rightIdx)) =>
          RootGrown(IN_MEMORY, old(nodes), nodes, firstLeaf, tree, height, ts, seps, key, value);
          var oldRootIdx := AllocateNode(nodes[0]);
          nodes := nodes[0 := Internal([midKey], [oldRootIdx, rightIdx])];
          if firstLeaf == 0 {
            firstLeaf := oldRootIdx;
          }
          tree, height := NewRoot(ts, seps, oldRootIdx), height + 1;
        case None =>
          RootKept(IN_MEMORY, old(nodes), nodes, firstLeaf, tree, height, ts, key, value);
          tree := ts[0];
      }
    }

    method AllocateNode(node: Node) returns (idx: nat)
      modifies this`nodes
      ensures idx == |old(nodes)| && nodes == old(nodes) + [node]
    {
      idx := |nodes|;
      nodes := nodes + [node];
    }

    /** Insert below `nodeIdx`. The ghost results describe what stands there now: the
        same subtree changed, or two subtrees with the promoted key between them. */
    method InsertRecursive(nodeIdx: nat, key: Bytes, value: Bytes, ghost t: Tree, ghost h: nat,
                           ghost low: Option<Bytes>, ghost high: Option<Bytes>, ghost before: Option<nat>, ghost after: Option<nat>)
      returns (split: Option<(Bytes, nat)>, ghost ts: seq<Tree>, ghost seps: seq<Bytes>)
      requires Part(IN_MEMORY, nodes, [t], [], h, low, high, before, after)
      requires t.id == nodeIdx && InRange(key, low, high) && |nodes| != 2
      modifies this`nodes
      ensures Inserted(IN_MEMORY, old(nodes), nodes, t, ts, seps, h, low, high, before, after, key, value)
      ensures |ts| == |seps| + 1 && |seps| <= 1
      ensures split == SplitOf(ts, seps)
      ensures ts[0].Tip? == t.Tip?
      ensures t.Tip? ==> |nodes| == |old(nodes)| + |seps|
      ensures t.Tip? && seps != [] ==> LeafIdsOf(ts) == [t.id, |old(nodes)|]
      decreases h
    {
      hide Part, Inserted, Framed, Grown, Ascended, Items, ItemsOf, Ids, IdsOf, LeafIds, LeafIdsOf, Put;
      RootOf(IN_MEMORY, nodes, t, h, low, high, before, after);
      if nodes[nodeIdx].Leaf? {
        split, ts, seps := LeafInsert(nodeIdx, key, value, t, low, high, before, after);
      } else {
        var n := nodes[nodeIdx];
        var childPos := CountAtMost(n.keys, key);
        Unwrap(IN_MEMORY, nodes, t, h, low, high, before, after);
        ChildCovers(n.keys, key, low, high);
        Descend(IN_MEMORY, nodes, t.kids, t.keys, h - 1, low, high, before, after, childPos);
        LeavesExist(IN_MEMORY, t, h, low, high);
        ghost var l, r := LeafIdsOf(t.kids[..childPos]), LeafIdsOf(t.kids[childPos + 1..]);
        var childSplit, us, useps := InsertRecursive(n.children[childPos], key, value, t.kids[childPos], h - 1,
          LowOf(t.keys, low, childPos), HighOf(t.keys, high, childPos), BeforeOf(l, before), AfterOf(r, after));
        ghost var kids, keys := Spliced(t.kids, childPos, us), SplicedKeys(t.keys, childPos, useps);
        BranchAscended(IN_MEMORY, old(nodes), nodes, t, h - 1, low, high, before, after, childPos, us, useps, key, value);
        SplicedPair(t.kids, t.keys, childPos, us, useps);
        ghost var ascended := nodes;
        match childSplit {
          case Some((promotedKey, newRightIdx)) =>
            split := InternalAbsorbSplit(nodeIdx, childPos, promotedKey, newRightIdx);
          case None =>
            split := None;
        }
        ts, seps := BranchStored(IN_MEMORY, old(nodes), ascended, nodes, t, kids, keys, h - 1, low, high, before, after, key, value);
      }
    }

    /** Insert into a leaf, splitting it first when it is full. */
    method LeafInsert(leafIdx: nat, key: Bytes, value: Bytes, ghost t: Tree,
                      ghost low: Option<Bytes>, ghost high: Option<Bytes>, ghost before: Option<nat>, ghost after: Option<nat>)
      returns (split: Option<(Bytes, nat)>, ghost ts: seq<Tree>, ghost seps: seq<Bytes>)
      requires t.Tip? && Part(IN_MEMORY, nodes, [t], [], 0, low, high, before, after)
      requires t.id == leafIdx && InRange(key, low, high) && |nodes| != 2
      modifies this`nodes
      ensures Inserted(IN_MEMORY, old(nodes), nodes, t, ts, seps, 0, low, high, before, after, key, value)
      ensures |ts| == |seps| + 1 && |seps| <= 1
      ensures split == SplitOf(ts, seps)
      ensures ts[0].Tip?
      ensures |nodes| == |old(nodes)| + |seps|
      ensures seps != [] ==> LeafIdsOf(ts) == [t.id, |old(nodes)|]
    {
      hide Part, Inserted, Framed, Grown, Items, ItemsOf, IdsOf, LeafIdsOf, Put, OrderedKeys, Search;
      TipFacts(IN_MEMORY, nodes, t, low, high, before, after);
      var leaf := nodes[leafIdx];
      var pos := Search(leaf.keys, key);
      match pos {
        case Some(i) =>
          nodes := nodes[leafIdx := leaf.(values := leaf.values[i := value])];
          ghost var t' := TipOverwritten(IN_MEMORY, old(nodes), nodes, t, low, high, before, after, key, value);
          split, ts, seps := None, [t'], [];
          return;
        case None =>
      }
      if |leaf.keys| >= ORDER - 1 {
        var promotedKey, rightIdx := SplitLeaf(leafIdx);
        TipSplit(IN_MEMORY, old(nodes), t, low, high, before, after);
        ghost var halves := TipHalves(IN_MEMORY, t, rightIdx);
        ghost var halved := nodes;
        var target := if AtMost(promotedKey, key) then rightIdx else leafIdx;
        ghost var p: nat := if AtMost(promotedKey, key) then 1 else 0;
        HalfChosen(IN_MEMORY, nodes, t, rightIdx, low, high, before, after, key, p);
        InsertIntoLeaf(target, key, value);
        ts := HalfInserted(IN_MEMORY, halved, nodes, t, rightIdx, low, high, before, after, key, value, p);
        split, seps := Some((promotedKey, rightIdx)), [promotedKey];
        InsertedAfterSplit(IN_MEMORY, old(nodes), halved, nodes, t, halves, ts, seps, low, high, before, after, key, value);
      } else {
        InsertIntoLeaf(leafIdx, key, value);
        ghost var t' := TipInserted(IN_MEMORY, old(nodes), nodes, t, low, high, before, after, key, value);
        split, ts, seps := None, [t'], [];
      }
    }

    method InsertIntoLeaf(target: nat, key: Bytes, value: Bytes)
      requires target < |nodes| && nodes[target].Leaf? && |nodes[target].keys| == |nodes[target].values|
      modifies this`nodes
      ensures nodes == old(nodes)[target := WithKey(old(nodes)[target], key, value)]
    {
      var leaf := nodes[target];
      var pos := CountBelow(leaf.keys, key);
      nodes := nodes[target := leaf.(keys := InsertAt(leaf.keys, pos, key), values := InsertAt(leaf.values, pos, value))];
    }

    /** Move the upper half of a full leaf to a new slot and relink its neighbours. */
    method SplitLeaf(leafIdx: nat) returns (promoted: Bytes, rightIdx: nat)
      requires leafIdx < |nodes| && nodes[leafIdx].Leaf?
      requires ORDER / 2 < |nodes[leafIdx].keys| == |nodes[leafIdx].values|
      requires nodes[leafIdx].next.Some? ==>
                 && nodes[leafIdx].next.value < |nodes|
                 && nodes[leafIdx].next.value != leafIdx
                 && nodes[nodes[leafIdx].next.value].Leaf?
      modifies this`nodes
      ensures nodes == LeafSplit(IN_MEMORY, old(nodes), leafIdx)
      ensures promoted == old(nodes)[leafIdx].keys[ORDER / 2] && rightIdx == |old(nodes)|
    {
      var mid := ORDER / 2;
      var left := nodes[leafIdx];
      var oldNext := left.next;
      var rightLeaf := Leaf(left.keys[mid..], left.values[mid..], Some(leafIdx), oldNext);
      nodes := nodes[leafIdx := left.(keys := left.keys[..mid], values := left.values[..mid])];
      rightIdx := |nodes|;
      nodes := nodes + [rightLeaf];
      nodes := nodes[leafIdx := nodes[leafIdx].(next := Some(rightIdx))];
      match oldNext {
        case Some(nextIdx) => nodes := nodes[nextIdx := nodes[nextIdx].(prev := Some(rightIdx))];
        case None =>
      }
      promoted := nodes[rightIdx].keys[0];
    }

    /** Take up a child's split, splitting this node too when it is full. */
    method InternalAbsorbSplit(nodeIdx: nat, childPos: nat, promotedKey: Bytes, newRightIdx: nat)
      returns (split: Option<(Bytes, nat)>)
      requires nodeIdx < |nodes| && nodes[nodeIdx].Internal?
      requires childPos <= |nodes[nodeIdx].keys| < ORDER && |nodes[nodeIdx].children| == |nodes[nodeIdx].keys| + 1
      modifies this`nodes
      ensures var n := old(nodes)[nodeIdx];
              var keys, children := InsertAt(n.keys, childPos, promotedKey), InsertAt(n.children, childPos + 1, newRightIdx);
              nodes == Stored(IN_MEMORY, old(nodes), nodeIdx, keys, children) && split == StoredSplit(IN_MEMORY, old(nodes), keys)
    {
      var n := nodes[nodeIdx];
      if |n.keys| >= ORDER - 1 {
        var newPromoted, rightIdx := SplitInternal(nodeIdx, childPos, promotedKey, newRightIdx);
        split := Some((newPromoted, rightIdx));
      } else {
        nodes := nodes[nodeIdx := Internal(InsertAt(n.keys, childPos, promotedKey),
                                           InsertAt(n.children, childPos + 1, newRightIdx))];
        split := None;
      }
    }

    method SplitInternal(nodeIdx: nat, childPos: nat, incomingKey: Bytes, incomingRight: nat)
      returns (promoted: Bytes, rightIdx: nat)
      requires nodeIdx < |nodes| && nodes[nodeIdx].Internal?
      requires childPos <= |nodes[nodeIdx].keys| && |nodes[nodeIdx].children| == |nodes[nodeIdx].keys| + 1
      requires |nodes[nodeIdx].keys| >= ORDER - 1
      modifies this`nodes
      ensures var n := old(nodes)[nodeIdx];
              var keys, children := InsertAt(n.keys, childPos, incomingKey), InsertAt(n.children, childPos + 1, incomingRight);
              nodes == Stored(IN_MEMORY, old(nodes), nodeIdx, keys, children) && Some((promoted, rightIdx)) == StoredSplit(IN_MEMORY, old(nodes), keys)
    {
      var n := nodes[nodeIdx];
      var allKeys := InsertAt(n.keys, childPos, incomingKey);
      var allChildren := InsertAt(n.children, childPos + 1, incomingRight);
      var mid := |allKeys| / 2;
      promoted := allKeys[mid];
      var rightNode := Internal(allKeys[mid + 1..], allChildren[mid + 1..]);
      nodes := nodes[nodeIdx := Internal(allKeys[..mid], allChildren[..mid + 1])];
      rightIdx := |nodes|;
      nodes := nodes + [rightNode];
    }

    // ---- Walking the leaf list ----

    /** All entries with keys from `start` to `end`, by walking the leaf list. */
    method Range(start: Bytes, end: Bytes) returns (result: seq<Entry<Bytes>>)
      requires Valid()
      ensures result == Between(Contents(), start, end)
      ensures Sorted(result)
      ensures forall e :: e in result <==>
                e.key in Model() && Model()[e.key] == e.value && AtMost(start, e.key) && AtMost(e.key, end)
    {
      var leafIdx, p := FindLeaf(start);
      ghost var ids := LeafIds(tree);
      RangeView(IN_MEMORY, nodes, firstLeaf, tree, height, start, end, p);
      result := [];
      while true
        invariant p < |ids| && ids == LeafIds(tree) && leafIdx == ids[p]
        invariant result == Between(ChainItems(nodes, ids[..p]), start, end)
        decreases |ids| - p
      {
        LeafAt(IN_MEMORY, nodes, firstLeaf, tree, height, p);
        var leaf := nodes[leafIdx];
        var found, past, n := ScanLeaf(leaf, start, end);
        RangeLeaf(IN_MEMORY, nodes, firstLeaf, tree, height, start, end, p, n, found, past);
        result := result + found;
        if past {
          return;
        }
        match leaf.next {
          case Some(nextIdx) =>
            leafIdx := nextIdx;
            p := p + 1;
          case None =>
            return;
        }
      }
    }

    /** The leaves in list order. */
    method LeafIter() returns (indices: seq<nat>)
      requires Valid()
      ensures indices == LeafIds(tree)
    {
      indices := [];
      var current := Some(firstLeaf);
      ghost var ids := LeafIds(tree);
      while current.Some?
        invariant ids == LeafIds(tree) && |indices| <= |ids| && indices == ids[..|indices|]
        invariant current == if |indices| < |ids| then Some(ids[|indices|]) else None
        decreases |ids| - |indices|
      {
        var idx := current.value;
        LeafAt(IN_MEMORY, nodes, firstLeaf, tree, height, |indices|);
        if nodes[idx].Leaf? {
          indices := indices + [idx];
          current := nodes[idx].next;
        } else {
          break;
        }
      }
    }

    method Len() returns (n: nat)
      requires Valid()
      ensures n == |Model()|
    {
      var indices := LeafIter();
      n := 0;
      assert indices[..0] == [];
      for i := 0 to |indices|
        invariant n == |ChainItems(nodes, indices[..i])|
      {
        LeafAt(IN_MEMORY, nodes, firstLeaf, tree, height, i);
        ChainAt(nodes, indices, i);
        n := n + |nodes[indices[i]].keys|;
      }
      assert indices[..|indices|] == indices;
      Single(nodes, tree);
      ChainIsItems(nodes, [tree]);
      ContentsSorted(IN_MEMORY, nodes, firstLeaf, tree, height);
      ContentSize(Contents());
    }

    method IsEmpty() returns (empty: bool)
      requires Valid()
      ensures empty == (Model() == map[])
    {
      var n := Len();
      empty := n == 0;
    }
  }
}
