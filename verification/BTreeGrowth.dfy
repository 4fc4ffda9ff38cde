/** How branches and the root of the B+tree take up a split below them. */
module BTreeGrowth {
  import opened ByteStrings
  import opened Options
  import opened SortedEntries
  import opened BTreeShape
  import opened BTreeParts
  import opened BTreeLeaf

  /** The arena after giving the node at `idx` the keys and children listed: when they
      are too many, the upper half goes to a new slot and the median key is promoted. */
  function Stored(design: Design, nodes: seq<Node>, idx: nat, keys: seq<Bytes>, children: seq<nat>): seq<Node>
    requires idx < |nodes| && |children| == |keys| + 1
  {
    if |keys| < design.order then nodes[idx := Internal(keys, children)]
    else
      var mid := |keys| / 2;
      nodes[idx := Internal(keys[..mid], children[..mid + 1])] + [Internal(keys[mid + 1..], children[mid + 1..])]
  }

  function StoredSplit(design: Design, nodes: seq<Node>, keys: seq<Bytes>): Option<(Bytes, nat)> {
    if |keys| < design.order then None else Some((keys[|keys| / 2], |nodes|))
  }

  function SplitOf(ts: seq<Tree>, seps: seq<Bytes>): Option<(Bytes, nat)>
    requires |ts| == |seps| + 1
  {
    if seps == [] then None else Some((seps[0], ts[1].id))
  }

  /** Where the root of a part is. */
  lemma RootOf(design: Design, nodes: seq<Node>, t: Tree, h: nat, low: Option<Bytes>, high: Option<Bytes>, before: Option<nat>, after: Option<nat>)
    requires Part(design, nodes, [t], [], h, low, high, before, after)
    ensures t.id < |nodes| && nodes[t.id].Leaf? == t.Tip?
    ensures t.Tip? ==> h == 0
    ensures t.Branch? ==> h > 0
  {
    Single(nodes, t);
    assert Ordered(design, [t][0], h, LowOf([], low, 0), HighOf([], high, 0));
  }

  /** The children's side of a branch after the insertion below it. */
  ghost predicate Ascended(design: Design, nodes: seq<Node>, nodes': seq<Node>, t: Tree, kids: seq<Tree>, keys: seq<Bytes>, h: nat,
                           low: Option<Bytes>, high: Option<Bytes>, before: Option<nat>, after: Option<nat>,
                           key: Bytes, value: Bytes)
  {
    && t.Branch? && t.id < |nodes| && t.id !in IdsOf(t.kids) && after != Some(t.id)
    && Part(design, nodes', kids, keys, h, low, high, before, after)
    && Framed(nodes, nodes', IdsOf(t.kids), after)
    && Grown(nodes, nodes', IdsOf(t.kids), IdsOf(kids))
    && ItemsOf(kids) == Put(Items(t), key, value)
    && LeafIds(t) != [] && LeafIdsOf(kids)[0] == LeafIds(t)[0]
  }

  /** Coming back from the child at `p` to the branch `t`. */
  lemma {:induction false} BranchAscended(design: Design, nodes: seq<Node>, nodes': seq<Node>, t: Tree, h: nat,
                                          low: Option<Bytes>, high: Option<Bytes>, before: Option<nat>, after: Option<nat>,
                                          p: nat, us: seq<Tree>, useps: seq<Bytes>, key: Bytes, value: Bytes)
    requires t.Branch? && Part(design, nodes, [t], [], h + 1, low, high, before, after) && p <= |t.keys| && |t.kids| == |t.keys| + 1
    requires InRange(key, LowOf(t.keys, low, p), HighOf(t.keys, high, p))
    requires Inserted(design, nodes, nodes', t.kids[p], us, useps, h, LowOf(t.keys, low, p), HighOf(t.keys, high, p),
                      BeforeOf(LeafIdsOf(t.kids[..p]), before), AfterOf(LeafIdsOf(t.kids[p + 1..]), after), key, value)
    ensures Ascended(design, nodes, nodes', t, Spliced(t.kids, p, us), SplicedKeys(t.keys, p, useps), h, low, high, before, after, key, value)
    ensures t.id < |nodes| && t.id < |nodes'| && nodes'[t.id] == nodes[t.id] && us[0].id == t.kids[p].id
  {
    hide Ordered, OrderedForest, ItemsOf, Put, Held, HeldForest, Grown, Linked;
    Unwrap(design, nodes, t, h + 1, low, high, before, after);
    Ascend(design, nodes, nodes', t.kids, t.keys, h, low, high, before, after, p, us, useps, key, value);
    Single(nodes, t);
  }

  lemma {:induction false} BranchStored(design: Design, nodes: seq<Node>, nodes1: seq<Node>, nodes2: seq<Node>, t: Tree, kids: seq<Tree>, keys: seq<Bytes>, h: nat,
                     low: Option<Bytes>, high: Option<Bytes>, before: Option<nat>, after: Option<nat>, key: Bytes, value: Bytes)
    returns (ts: seq<Tree>, seps: seq<Bytes>)
    requires Ascended(design, nodes, nodes1, t, kids, keys, h, low, high, before, after, key, value)
    requires 0 < |keys| <= design.order
    requires nodes2 == Stored(design, nodes1, t.id, keys, Roots(kids))
    ensures Inserted(design, nodes, nodes2, t, ts, seps, h + 1, low, high, before, after, key, value)
    ensures |ts| == |seps| + 1 && |seps| <= 1
    ensures SplitOf(ts, seps) == StoredSplit(design, nodes1, keys)
    ensures ts[0].Branch?
  {
    HeldIdsBound(nodes1, kids);
    StoredPart(design, nodes1, nodes2, t.id, kids, keys, h, low, high, before, after);
    if |keys| < design.order {
      ts := StoredWhole(design, nodes2, t.id, kids, keys, h, low, high, before, after);
      seps := [];
    } else {
      ts := StoredHalves(design, nodes1, nodes2, t.id, kids, keys, h, low, high, before, after);
      seps := [keys[|keys| / 2]];
    }
    StoredInserted(design, nodes, nodes1, nodes2, t, kids, keys, ts, seps, h, low, high, before, after, key, value);
  }

  lemma {:induction false} StoredWhole(design: Design, nodes2: seq<Node>, id: nat, kids: seq<Tree>, keys: seq<Bytes>, h: nat,
                    low: Option<Bytes>, high: Option<Bytes>, before: Option<nat>, after: Option<nat>) returns (ts: seq<Tree>)
    requires Part(design, nodes2, kids, keys, h, low, high, before, after)
    requires 0 < |keys| < design.order && id !in IdsOf(kids) && id < |nodes2| && nodes2[id] == Internal(keys, Roots(kids))
    ensures Part(design, nodes2, ts, [], h + 1, low, high, before, after)
    ensures IdsOf(ts) == IdsOf(kids) + {id} && LeafIdsOf(ts) == LeafIdsOf(kids) && ItemsOf(ts) == ItemsOf(kids)
    ensures ts[0].Branch? && ts[0].id == id
  {
    var t' := Branch(id, keys, kids);
    ts := [t'];
    Single(nodes2, t');
    Wrap(design, nodes2, t', h, low, high, before, after);
  }

  lemma {:induction false} StoredHalves(design: Design, nodes1: seq<Node>, nodes2: seq<Node>, id: nat, kids: seq<Tree>, keys: seq<Bytes>, h: nat,
                     low: Option<Bytes>, high: Option<Bytes>, before: Option<nat>, after: Option<nat>) returns (ts: seq<Tree>)
    requires Part(design, nodes2, kids, keys, h, low, high, before, after)
    requires |keys| == design.order && id !in IdsOf(kids) && |nodes1| !in IdsOf(kids) && id < |nodes1|
    requires nodes2 == Stored(design, nodes1, id, keys, Roots(kids))
    ensures Part(design, nodes2, ts, [keys[|keys| / 2]], h + 1, low, high, before, after)
    ensures IdsOf(ts) == IdsOf(kids) + {id, |nodes1|} && LeafIdsOf(ts) == LeafIdsOf(kids) && ItemsOf(ts) == ItemsOf(kids)
    ensures |ts| == 2 && ts[0].Branch? && ts[0].id == id && ts[1].id == |nodes1|
  {
    var mid := |keys| / 2;
    var left := Branch(id, keys[..mid], kids[..mid + 1]);
    var right := Branch(|nodes1|, keys[mid + 1..], kids[mid + 1..]);
    assert Roots(kids)[..mid + 1] == Roots(left.kids) && Roots(kids)[mid + 1..] == Roots(right.kids);
    WrapTwo(design, nodes2, kids, keys, h, low, high, before, after, mid, left, right);
    ts := [left, right];
  }

  lemma {:induction false} StoredInserted(design: Design, nodes: seq<Node>, nodes1: seq<Node>, nodes2: seq<Node>, t: Tree, kids: seq<Tree>, keys: seq<Bytes>,
                       ts: seq<Tree>, seps: seq<Bytes>, h: nat,
                       low: Option<Bytes>, high: Option<Bytes>, before: Option<nat>, after: Option<nat>, key: Bytes, value: Bytes)
    requires Ascended(design, nodes, nodes1, t, kids, keys, h, low, high, before, after, key, value)
    requires Part(design, nodes2, ts, seps, h + 1, low, high, before, after) && |seps| <= 1 && ts[0].id == t.id
    requires IdsOf(ts) == IdsOf(kids) + (if |nodes2| == |nodes1| then {t.id} else {t.id, |nodes1|})
    requires LeafIdsOf(ts) == LeafIdsOf(kids) && ItemsOf(ts) == ItemsOf(kids)
    requires |nodes1| <= |nodes2| <= |nodes1| + 1 && forall i :: 0 <= i < |nodes1| && i != t.id ==> nodes2[i] == nodes1[i]
    ensures Inserted(design, nodes, nodes2, t, ts, seps, h + 1, low, high, before, after, key, value)
  {
    assert Framed(nodes, nodes2, Ids(t), after);
    assert Grown(nodes, nodes2, Ids(t), IdsOf(ts));
  }

  lemma {:induction false} StoredPart(design: Design, nodes1: seq<Node>, nodes2: seq<Node>, idx: nat, kids: seq<Tree>, keys: seq<Bytes>, h: nat,
                   low: Option<Bytes>, high: Option<Bytes>, before: Option<nat>, after: Option<nat>)
    requires Part(design, nodes1, kids, keys, h, low, high, before, after)
    requires idx < |nodes1| && idx !in IdsOf(kids) && after != Some(idx)
    requires nodes2 == Stored(design, nodes1, idx, keys, Roots(kids))
    ensures Part(design, nodes2, kids, keys, h, low, high, before, after)
  {
    PartFrame(design, nodes1, nodes2, kids, keys, h, low, high, before, after);
  }

  /** Splicing in the pair that a child split into, seen from the parent's node. */
  lemma {:induction false} SplicedPair(ts: seq<Tree>, seps: seq<Bytes>, p: nat, us: seq<Tree>, useps: seq<Bytes>)
    requires p <= |seps| && |ts| == |seps| + 1
    requires 1 <= |us| == |useps| + 1 <= 2 && us[0].id == ts[p].id
    ensures useps == [] ==> SplicedKeys(seps, p, useps) == seps && Roots(Spliced(ts, p, us)) == Roots(ts)
    ensures useps != [] ==> SplicedKeys(seps, p, useps) == InsertAt(seps, p, useps[0])
                            && Roots(Spliced(ts, p, us)) == InsertAt(Roots(ts), p + 1, us[1].id)
  {
  }

  // ---- The root ----

  /** The arena after moving the root that split to a new slot and putting the new root
      into its place. Unless the stale link is left, the right half of a split leaf learns
      where the left half has gone. */
  function Moved(design: Design, nodes: seq<Node>, keys: seq<Bytes>, rightIdx: nat): seq<Node>
    requires nodes != []
  {
    var ns := (nodes + [nodes[0]])[0 := Internal(keys, [|nodes|, rightIdx])];
    if !design.staleLink && nodes[0].Leaf? && nodes[0].next.Some? && nodes[0].next.value < |nodes| && ns[nodes[0].next.value].Leaf?
    then ns[nodes[0].next.value := ns[nodes[0].next.value].(prev := Some(|nodes|))]
    else ns
  }

  /** The new root above a root that split; the old root now lives at `idx`. */
  ghost function NewRoot(ts: seq<Tree>, seps: seq<Bytes>, idx: nat): Tree
    requires |ts| == 2
  {
    Branch(0, seps, [ts[0].(id := idx), ts[1]])
  }

  lemma {:induction false} RootMoved(design: Design, nodes: seq<Node>, ts: seq<Tree>, seps: seq<Bytes>, h: nat)
    requires Part(design, nodes, ts, seps, h, None, None, None, None)
    requires |seps| == 1 && ts[0].id == 0 && |nodes| > 0
    requires ts[0].Tip? ==> LeafIdsOf(ts) == [0, 1] && |nodes| == 2
    ensures var r := NewRoot(ts, seps, |nodes|);
            var nodes' := Moved(design, nodes, seps, ts[1].id);
            && Part(design, nodes', [r], [], h + 1, None, None, None, None)
            && Ids(r) == IdsOf(ts) + {|nodes|}
            && Items(r) == ItemsOf(ts)
            && LeafIds(r) == if ts[0].Tip? then [2, 1] else LeafIdsOf(ts)
  {
    hide Moved, Part, Ordered, Held;
    PairOf(design, nodes, ts, seps, h);
    var r := NewRoot(ts, seps, |nodes|);
    var nodes' := Moved(design, nodes, seps, ts[1].id);
    MovedNodes(design, nodes, ts, seps, h);
    MovedPart(design, nodes, ts, seps, h, r.kids);
    assert Roots(r.kids) == [|nodes|, ts[1].id];
    Wrap(design, nodes', r, h, None, None, None, None);
    Single(nodes', r);
  }

  lemma PairOf(design: Design, nodes: seq<Node>, ts: seq<Tree>, seps: seq<Bytes>, h: nat)
    requires Part(design, nodes, ts, seps, h, None, None, None, None) && |seps| == 1
    ensures |ts| == 2
  {
  }

  /** The two subtrees of the new root. */
  lemma {:induction false} MovedPart(design: Design, nodes: seq<Node>, ts: seq<Tree>, seps: seq<Bytes>, h: nat, us: seq<Tree>)
    requires Part(design, nodes, ts, seps, h, None, None, None, None)
    requires |seps| == 1 && |ts| == 2 && ts[0].id == 0 && |nodes| > 0
    requires ts[0].Tip? ==> LeafIdsOf(ts) == [0, 1] && |nodes| == 2
    requires us == [ts[0].(id := |nodes|), ts[1]]
    ensures var nodes' := Moved(design, nodes, seps, ts[1].id);
            && Part(design, nodes', us, seps, h, None, None, None, None)
            && 0 !in IdsOf(us) && IdsOf(us) == IdsOf(ts) - {0} + {|nodes|} && 0 in IdsOf(ts)
            && ItemsOf(us) == ItemsOf(ts)
            && LeafIdsOf(us) == if ts[0].Tip? then [2, 1] else LeafIdsOf(ts)
  {
    hide Moved, LinkedAt, Linked, Ordered, OrderedForest, Held, HeldForest, DistinctForest, SameButPrev, RelinkedBack;
    var nodes' := Moved(design, nodes, seps, ts[1].id);
    HeldIdsBound(nodes, ts);
    RootListed(ts);
    MovedNodes(design, nodes, ts, seps, h);
    MovedForest(nodes, nodes', ts, us);
    MovedOrdered(design, ts, seps, h, us);
    MovedLeaves(design, nodes, nodes', ts, us);
  }

  lemma RootListed(ts: seq<Tree>)
    requires ts != []
    ensures ts[0].id in IdsOf(ts)
  {
    assert ts[0].id in Ids(ts[0]);
  }

  lemma {:induction false} MovedOrdered(design: Design, ts: seq<Tree>, seps: seq<Bytes>, h: nat, us: seq<Tree>)
    requires OrderedForest(design, ts, seps, h, None, None) && |ts| == 2
    requires |us| == 2 && us == [ts[0].(id := us[0].id), ts[1]]
    ensures OrderedForest(design, us, seps, h, None, None)
  {
    assert Ordered(design, us[0], h, None, HighOf(seps, None, 0));
  }

  lemma {:induction false} MovedForest(nodes: seq<Node>, nodes': seq<Node>, ts: seq<Tree>, us: seq<Tree>)
    requires |ts| == 2 && ts[0].id == 0 && HeldForest(nodes, ts) && DistinctForest(ts)
    requires forall i :: i in IdsOf(ts) ==> i < |nodes|
    requires us == [ts[0].(id := |nodes|), ts[1]]
    requires |nodes'| == |nodes| + 1 > 1 && nodes'[|nodes|] == nodes[0]
    requires forall i :: 0 < i < |nodes| ==> SameButPrev(nodes[i], nodes'[i])
    ensures HeldForest(nodes', us) && DistinctForest(us)
    ensures 0 !in IdsOf(us) && IdsOf(us) == IdsOf(ts) - {0} + {|nodes|}
    ensures ItemsOf(us) == ItemsOf(ts)
    ensures LeafIdsOf(us) == LeafIds(us[0]) + LeafIds(ts[1])
  {
    assert ts == [ts[0], ts[1]];
    Pair(nodes, ts[0], ts[1]);
    Pair(nodes', us[0], us[1]);
    assert 0 in Ids(ts[0]);
    HeldFrame(nodes, nodes', ts[1]);
    if ts[0].Branch? {
      ForestHeldFrame(nodes, nodes', ts[0].kids);
    }
  }

  function RelinkedBack(n: Node, prev: nat): Node {
    if n.Leaf? then n.(prev := Some(prev)) else n
  }

  /** What moving the root does to the arena. */
  lemma {:induction false} MovedNodes(design: Design, nodes: seq<Node>, ts: seq<Tree>, seps: seq<Bytes>, h: nat)
    requires Part(design, nodes, ts, seps, h, None, None, None, None)
    requires |seps| == 1 && ts[0].id == 0 && |nodes| > 0
    requires ts[0].Tip? ==> LeafIdsOf(ts) == [0, 1] && |nodes| == 2
    ensures var nodes' := Moved(design, nodes, seps, ts[1].id);
            && |nodes'| == |nodes| + 1 && nodes'[|nodes|] == nodes[0] && nodes'[0] == Internal(seps, [|nodes|, ts[1].id])
            && (forall i :: 0 < i < |nodes| ==> SameButPrev(nodes[i], nodes'[i]))
            && (ts[0].Branch? ==> forall i :: 0 < i < |nodes| ==> nodes'[i] == nodes[i])
            && (ts[0].Tip? ==> nodes'[1] == if design.staleLink then nodes[1] else RelinkedBack(nodes[1], 2))
  {
    assert ts == [ts[0], ts[1]];
    Pair(nodes, ts[0], ts[1]);
    if ts[0].Tip? {
      assert LinkedAt(design, nodes, LeafIdsOf(ts), None, None, 0);
    }
  }

  lemma {:induction false} MovedLeaves(design: Design, nodes: seq<Node>, nodes': seq<Node>, ts: seq<Tree>, us: seq<Tree>)
    requires |ts| == 2 && ts[0].id == 0 && DistinctForest(ts) && Linked(design, nodes, LeafIdsOf(ts), None, None)
    requires ts[0].Tip? ==> LeafIdsOf(ts) == [0, 1] && |nodes| == 2
    requires forall i :: i in IdsOf(ts) ==> i < |nodes|
    requires us == [ts[0].(id := |nodes|), ts[1]]
    requires |nodes'| == |nodes| + 1 > 1 && nodes'[|nodes|] == nodes[0]
    requires ts[0].Branch? ==> forall i :: 0 < i < |nodes| ==> nodes'[i] == nodes[i]
    requires ts[0].Tip? ==> nodes'[1] == if design.staleLink then nodes[1] else RelinkedBack(nodes[1], 2)
    ensures LeafIdsOf(us) == if ts[0].Tip? then [2, 1] else LeafIdsOf(ts)
    ensures Linked(design, nodes', LeafIdsOf(us), None, None)
  {
    assert ts == [ts[0], ts[1]];
    Pair(nodes, ts[0], ts[1]);
    Pair(nodes', us[0], us[1]);
    var ids, ids' := LeafIdsOf(ts), LeafIdsOf(us);
    if ts[0].Tip? {
      assert [0] + LeafIds(ts[1]) == [0, 1];
      assert LeafIds(ts[1]) == ([0] + LeafIds(ts[1]))[1..] == [1];
      assert LinkedAt(design, nodes, ids, None, None, 0) && LinkedAt(design, nodes, ids, None, None, 1);
      assert LinkedAt(design, nodes', ids', None, None, 0) && LinkedAt(design, nodes', ids', None, None, 1);
    } else {
      LeafIdsAreIds(ts[0].kids);
      LeafIdsAreIds([ts[1]]);
      Single(nodes, ts[1]);
      forall k | 0 <= k < |ids'| ensures LinkedAt(design, nodes', ids', None, None, k) {
        assert LinkedAt(design, nodes, ids, None, None, k);
        assert 0 in Ids(ts[0]);
        assert k < |LeafIds(ts[0])| ==> ids[k] in LeafIds(ts[0]);
        assert k >= |LeafIds(ts[0])| ==> ids[k] in LeafIds(ts[1]);
      }
    }
  }

  /** The invariant of the whole tree: a well-formed part whose root is slot 0, using
      every slot, with `firstLeaf` at the head of the leaf list. */
  ghost predicate WellFormed(design: Design, nodes: seq<Node>, firstLeaf: nat, tree: Tree, height: nat) {
    && tree.id == 0
    && Part(design, nodes, [tree], [], height, None, None, None, None)
    && (forall i :: i in Ids(tree) <==> 0 <= i < |nodes|)
    && LeafIds(tree) != [] && firstLeaf == LeafIds(tree)[0]
    && (tree.Tip? ==> |nodes| == 1)
    && (tree.Branch? ==> |nodes| >= 3 && firstLeaf == 2)
  }

  lemma RootPart(design: Design, nodes: seq<Node>, firstLeaf: nat, tree: Tree, height: nat)
    requires WellFormed(design, nodes, firstLeaf, tree, height)
    ensures Part(design, nodes, [tree], [], height, None, None, None, None)
    ensures tree.id == 0 && |nodes| > 0 && |nodes| != 2 && (tree.Tip? ==> |nodes| == 1)
  {
  }

  lemma {:induction false} RootKept(design: Design, nodes: seq<Node>, nodes1: seq<Node>, firstLeaf: nat, tree: Tree, height: nat, ts: seq<Tree>, key: Bytes, value: Bytes)
    requires WellFormed(design, nodes, firstLeaf, tree, height)
    requires Inserted(design, nodes, nodes1, tree, ts, [], height, None, None, None, None, key, value)
    requires ts[0].Tip? == tree.Tip? && (tree.Tip? ==> |nodes1| == |nodes|)
    ensures WellFormed(design, nodes1, firstLeaf, ts[0], height) && Items(ts[0]) == Put(Items(tree), key, value)
  {
    assert ts == [ts[0]];
    Single(nodes1, ts[0]);
  }

  lemma {:induction false} RootGrown(design: Design, nodes: seq<Node>, nodes1: seq<Node>, firstLeaf: nat, tree: Tree, height: nat, ts: seq<Tree>, seps: seq<Bytes>,
                                     key: Bytes, value: Bytes)
    requires WellFormed(design, nodes, firstLeaf, tree, height) && |seps| == 1
    requires Inserted(design, nodes, nodes1, tree, ts, seps, height, None, None, None, None, key, value)
    requires ts[0].Tip? == tree.Tip?
    requires tree.Tip? ==> LeafIdsOf(ts) == [0, 1] && |nodes1| == 2
    ensures |nodes1| > 0
    ensures var nodes2 := Moved(design, nodes1, [seps[0]], ts[1].id);
            var r := NewRoot(ts, seps, |nodes1|);
            && WellFormed(design, nodes2, if firstLeaf == 0 then |nodes1| else firstLeaf, r, height + 1)
            && Items(r) == Put(Items(tree), key, value)
  {
    assert seps == [seps[0]];
    RootMoved(design, nodes1, ts, seps, height);
    hide Part, Framed, Put, Held, Items;
  }
}
