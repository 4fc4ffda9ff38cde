/** What the entries of a well-formed B+tree are, seen from its leaves. */
module BTreeQueries {
  import opened ByteStrings
  import opened Options
  import opened SortedEntries
  import opened BTreeShape
  import opened BTreeParts
  import opened BTreeLeaf
  import opened BTreeChain
  import opened BTreeGrowth

  /** What the tree holds around the leaf that covers `key`. */
  lemma ContentsAround(design: Design, nodes: seq<Node>, firstLeaf: nat, tree: Tree, height: nat, key: Bytes, p: nat)
    requires WellFormed(design, nodes, firstLeaf, tree, height) && CoversKey(design, nodes, LeafIds(tree), p, key)
    ensures Lookup(Items(tree), key) == Lookup(NodeItems(nodes, LeafIds(tree)[p]), key)
    ensures Remove(Items(tree), key) == ChainItems(nodes, LeafIds(tree)[..p])
                                       + Remove(NodeItems(nodes, LeafIds(tree)[p]), key)
                                       + ChainItems(nodes, LeafIds(tree)[p + 1..])
    ensures Items(tree) == ChainItems(nodes, LeafIds(tree))
    ensures Items(tree) == ChainItems(nodes, LeafIds(tree)[..p])
                          + NodeItems(nodes, LeafIds(tree)[p])
                          + ChainItems(nodes, LeafIds(tree)[p + 1..])
  {
    var ids := LeafIds(tree);
    Single(nodes, tree);
    ChainIsItems(nodes, [tree]);
    ChainAt(nodes, ids, p);
    OnlyTheMiddleMatters(ChainItems(nodes, ids[..p]), NodeItems(nodes, ids[p]), ChainItems(nodes, ids[p + 1..]), key, []);
  }

  lemma ContentsSorted(design: Design, nodes: seq<Node>, firstLeaf: nat, tree: Tree, height: nat)
    requires WellFormed(design, nodes, firstLeaf, tree, height)
    ensures Sorted(Items(tree))
  {
    assert Ordered(design, [tree][0], height, LowOf([], None, 0), HighOf([], None, 0));
    ItemsInOrder(design, tree, height, None, None);
  }

  lemma RemovalInModel(design: Design, nodes: seq<Node>, firstLeaf: nat, tree: Tree, height: nat, key: Bytes)
    requires WellFormed(design, nodes, firstLeaf, tree, height)
    ensures Content(Remove(Items(tree), key)) == Content(Items(tree)) - {key}
    ensures Lookup(Items(tree), key).Some? <==> key in Content(Items(tree))
    ensures key !in Content(Items(tree)) ==> Content(Items(tree)) - {key} == Content(Items(tree))
  {
    LookupIsContent(Items(tree), key);
    ContentsSorted(design, nodes, firstLeaf, tree, height);
    PutRemoveContent(Items(tree), key, []);
  }

  lemma InsertionInModel(design: Design, nodes: seq<Node>, firstLeaf: nat, tree: Tree, height: nat, key: Bytes, value: Bytes)
    requires WellFormed(design, nodes, firstLeaf, tree, height)
    ensures Content(Put(Items(tree), key, value)) == Content(Items(tree))[key := value]
  {
    ContentsSorted(design, nodes, firstLeaf, tree, height);
    PutRemoveContent(Items(tree), key, value);
  }

  /** Removing a key from the leaf that covers it keeps the tree well-formed. */
  lemma TreeRemoved(design: Design, nodes: seq<Node>, firstLeaf: nat, tree: Tree, height: nat, key: Bytes, p: nat)
    requires WellFormed(design, nodes, firstLeaf, tree, height)
    requires CoversKey(design, nodes, LeafIds(tree), p, key) && Search(nodes[LeafIds(tree)[p]].keys, key).Some?
    ensures var id := LeafIds(tree)[p];
            var nodes' := nodes[id := WithoutKey(nodes[id], Search(nodes[id].keys, key).value)];
            var tree' := Redo(tree, id, nodes'[id].keys, nodes'[id].values);
            && WellFormed(design, nodes', firstLeaf, tree', height) && Items(tree') == Remove(Items(tree), key)
            && tree'.Tip? == tree.Tip?
  {
    hide Remove;
    LeafRemoved(design, nodes, tree, height, p, key);
  }

  /** A search begins at the root, which covers every key. */
  lemma SearchStarts(design: Design, nodes: seq<Node>, firstLeaf: nat, tree: Tree, height: nat, key: Bytes)
    requires WellFormed(design, nodes, firstLeaf, tree, height)
    ensures Covering(design, nodes, LeafIds(tree), key, Descent(tree, height, None, None, None, None, [], []))
    ensures tree.id == 0
  {
    assert [] + LeafIds(tree) + [] == LeafIds(tree);
  }

  /** What scanning the leaf at place `p` means for the whole result. */
  lemma RangeLeaf(design: Design, nodes: seq<Node>, firstLeaf: nat, tree: Tree, height: nat, start: Bytes, end: Bytes, p: nat, n: nat, found: seq<Entry<Bytes>>, past: bool)
    requires WellFormed(design, nodes, firstLeaf, tree, height) && p < |LeafIds(tree)|
    requires ScannedTo(NodeItems(nodes, LeafIds(tree)[p]), start, end, n, found, past)
    ensures var ids := LeafIds(tree);
            Between(ChainItems(nodes, ids[..p]), start, end) + found ==
            if past || p + 1 == |ids| then Between(Items(tree), start, end)
            else Between(ChainItems(nodes, ids[..p + 1]), start, end)
  {
    var ids := LeafIds(tree);
    var seen, items, rest := ChainItems(nodes, ids[..p]), NodeItems(nodes, ids[p]), ChainItems(nodes, ids[p + 1..]);
    assert Items(tree) == ChainItems(nodes, ids) by { Single(nodes, tree); ChainIsItems(nodes, [tree]); }
    ChainAt(nodes, ids, p);
    BetweenConcat(seen, items[..n], start, end);
    if past {
      ContentsSorted(design, nodes, firstLeaf, tree, height);
      StopPastEnd(Items(tree), seen, items, rest, n, start, end);
    } else {
      assert items[..n] == items;
      assert p + 1 == |ids| ==> ids[..p + 1] == ids;
    }
  }

  lemma RangeView(design: Design, nodes: seq<Node>, firstLeaf: nat, tree: Tree, height: nat, start: Bytes, end: Bytes, p: nat)
    requires WellFormed(design, nodes, firstLeaf, tree, height) && CoversKey(design, nodes, LeafIds(tree), p, start)
    ensures Items(tree) == ChainItems(nodes, LeafIds(tree)) && Sorted(Items(tree))
    ensures Between(ChainItems(nodes, LeafIds(tree)[..p]), start, end) == []
    ensures Sorted(Between(Items(tree), start, end))
    ensures forall e :: e in Between(Items(tree), start, end) <==>
              e.key in Content(Items(tree)) && Content(Items(tree))[e.key] == e.value && AtMost(start, e.key) && AtMost(e.key, end)
  {
    ContentsAround(design, nodes, firstLeaf, tree, height, start, p);
    ContentsSorted(design, nodes, firstLeaf, tree, height);
    BetweenMeaning(Items(tree), start, end);
    BetweenOutside(ChainItems(nodes, LeafIds(tree)[..p]), start, end);
  }

  /** The node at place `p` of the leaf list. */
  lemma LeafAt(design: Design, nodes: seq<Node>, firstLeaf: nat, tree: Tree, height: nat, p: nat)
    requires WellFormed(design, nodes, firstLeaf, tree, height) && p < |LeafIds(tree)|
    ensures var ids := LeafIds(tree);
            && ids[p] < |nodes| && nodes[ids[p]].Leaf?
            && |nodes[ids[p]].keys| == |nodes[ids[p]].values|
            && NodeItems(nodes, ids[p]) == Zip(nodes[ids[p]].keys, nodes[ids[p]].values)
            && nodes[ids[p]].next == (if p + 1 < |ids| then Some(ids[p + 1]) else None)
  {
    Single(nodes, tree);
    assert LinkedAt(design, nodes, LeafIds(tree), None, None, p);
    LeavesPaired(design, nodes, [tree], [], height, None, None, p);
  }

  /** `found` is what the interval selects from the first `n` items; when `past`, item
      `n` is the first beyond the end, otherwise all items were seen. */
  ghost predicate ScannedTo(items: seq<Entry<Bytes>>, start: Bytes, end: Bytes, n: nat, found: seq<Entry<Bytes>>, past: bool) {
    && n <= |items|
    && found == Between(items[..n], start, end)
    && if past then n < |items| && Less(end, items[n].key) else n == |items|
  }

  lemma BetweenStep(items: seq<Entry<Bytes>>, i: nat, start: Bytes, end: Bytes)
    requires i < |items|
    ensures Between(items[..i + 1], start, end) ==
            Between(items[..i], start, end)
            + (if AtMost(start, items[i].key) && AtMost(items[i].key, end) then [items[i]] else [])
  {
    assert items[..i + 1] == items[..i] + [items[i]];
    BetweenConcat(items[..i], [items[i]], start, end);
    assert [items[i]][1..] == [];
  }

  /** Once a key is past the end of the interval, nothing further can be in it. */
  lemma StopPastEnd(all: seq<Entry<Bytes>>, seen: seq<Entry<Bytes>>, items: seq<Entry<Bytes>>, rest: seq<Entry<Bytes>>,
                    i: nat, start: Bytes, end: Bytes)
    requires Sorted(all) && all == seen + items + rest
    requires i < |items| && Less(end, items[i].key)
    ensures Between(all, start, end) == Between(seen + items[..i], start, end)
  {
    var a := seen + items[..i];
    var b := items[i..] + rest;
    assert all == a + b;
    forall j | 0 <= j < |b| ensures Less(end, b[j].key) {
      assert b[0] == all[|a|] && b[j] == all[|a| + j];
      if j > 0 { LessTransitive(end, b[0].key, b[j].key); }
    }
    BetweenConcat(a, b, start, end);
    BetweenOutside(b, start, end);
  }

  /** The entries of one leaf that lie in the interval; `past` says that a key
      beyond the end was met. */
  method ScanLeaf(leaf: Node, start: Bytes, end: Bytes) returns (found: seq<Entry<Bytes>>, past: bool, ghost n: nat)
    requires leaf.Leaf? && |leaf.keys| == |leaf.values|
    ensures ScannedTo(Zip(leaf.keys, leaf.values), start, end, n, found, past)
  {
    ghost var items := Zip(leaf.keys, leaf.values);
    assert items[..0] == [];
    found := [];
    for i := 0 to |leaf.keys|
      invariant found == Between(items[..i], start, end)
    {
      var k := leaf.keys[i];
      if Less(k, start) {
      } else if Less(end, k) {
        past, n := true, i;
        return;
      } else {
        found := found + [Entry(k, leaf.values[i])];
      }
      BetweenStep(items, i, start, end);
    }
    past, n := false, |leaf.keys|;
  }
}
