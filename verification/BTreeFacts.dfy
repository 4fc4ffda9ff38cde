/** What the B+tree's invariant says about the arena itself, and about whole runs. */
module BTreeFacts {
  import opened ByteStrings
  import opened Options
  import opened SortedEntries
  import opened BTreeShape
  import opened BTreeParts
  import opened BTreeGrowth
  import opened BTrees
  import BTreeChain

  /** The limits on one node: at most three keys; one child more than keys, or one value
      for every key. */
  ghost predicate GoodShape(design: Design, n: Node) {
    && OrderedKeys(n.keys)
    && match n
       case Internal(keys, children) => 0 < |keys| < design.order && |children| == |keys| + 1
       case Leaf(keys, values, _, _) => |values| == |keys| < design.order
  }

  lemma {:induction false} ForestShape(design: Design, nodes: seq<Node>, ts: seq<Tree>, seps: seq<Bytes>, h: nat, low: Option<Bytes>, high: Option<Bytes>, i: nat)
    requires OrderedForest(design, ts, seps, h, low, high) && HeldForest(nodes, ts) && i in IdsOf(ts)
    ensures i < |nodes| && GoodShape(design, nodes[i])
    decreases ts
  {
    var t := ts[0];
    assert Ordered(design, t, h, low, HighOf(seps, high, 0));
    if i in Ids(t) {
      if i != t.id {
        ForestShape(design, nodes, t.kids, t.keys, h - 1, low, HighOf(seps, high, 0), i);
      }
    } else {
      CutForest(design, ts, seps, h, low, high, 0);
      ForestShape(design, nodes, ts[1..], seps[1..], h, Some(seps[0]), high, i);
    }
  }

  /** Every slot of a well-formed tree's arena holds a node within the limits. */
  lemma ArenaShape(design: Design, nodes: seq<Node>, firstLeaf: nat, tree: Tree, height: nat, i: nat)
    requires WellFormed(design, nodes, firstLeaf, tree, height) && i < |nodes|
    ensures GoodShape(design, nodes[i])
  {
    Single(nodes, tree);
    ForestShape(design, nodes, [tree], [], height, None, None, i);
  }

  /** From node `i`, `d` steps down along any children lead to a leaf. */
  ghost predicate LeavesAtDepth(nodes: seq<Node>, i: nat, d: nat)
    decreases d
  {
    && i < |nodes|
    && match nodes[i]
       case Leaf(_, _, _, _) => d == 0
       case Internal(_, children) => d > 0 && forall j :: 0 <= j < |children| ==> LeavesAtDepth(nodes, children[j], d - 1)
  }

  lemma {:induction false} TreeDepth(design: Design, nodes: seq<Node>, t: Tree, h: nat, low: Option<Bytes>, high: Option<Bytes>)
    requires Ordered(design, t, h, low, high) && Held(nodes, t)
    ensures LeavesAtDepth(nodes, t.id, h)
    decreases t
  {
    if t.Branch? {
      forall j | 0 <= j < |t.kids| ensures LeavesAtDepth(nodes, nodes[t.id].children[j], h - 1) {
        BTreeChain.HeldMember(nodes, t.kids, j);
        TreeDepth(design, nodes, t.kids[j], h - 1, LowOf(t.keys, low, j), HighOf(t.keys, high, j));
      }
    }
  }

  /** All leaves are equally deep below the root in slot 0. */
  lemma Balanced(design: Design, nodes: seq<Node>, firstLeaf: nat, tree: Tree, height: nat)
    requires WellFormed(design, nodes, firstLeaf, tree, height)
    ensures LeavesAtDepth(nodes, 0, height)
  {
    Single(nodes, tree);
    assert Ordered(design, [tree][0], height, LowOf([], None, 0), HighOf([], None, 0));
    TreeDepth(design, nodes, tree, height, None, None);
  }

  // ---- The backward links ----

  /** When the backward links agree with the leaf list. Where the stale link is left, the
      root split that turned the first leaf into slot 2 left slot 1 pointing at slot 0;
      that one link is wrong until the first leaf splits again, and no other link ever is.
      Elsewhere `next` and `prev` are inverse to each other. */
  lemma BackwardLinksExactly(design: Design, nodes: seq<Node>, firstLeaf: nat, tree: Tree, height: nat, k: nat)
    requires WellFormed(design, nodes, firstLeaf, tree, height) && 0 < k < |LeafIds(tree)|
    ensures var ids := LeafIds(tree);
            && ids[k] < |nodes| && nodes[ids[k]].Leaf?
            && ids[k - 1] < |nodes| && nodes[ids[k - 1]].Leaf? && nodes[ids[k - 1]].next == Some(ids[k])
            && (nodes[ids[k]].prev == Some(ids[k - 1]) <==> !(design.staleLink && k == 1 && ids[1] == 1))
            && (design.staleLink && k == 1 && ids[1] == 1 ==> nodes[1].prev == Some(0) && nodes[0].Internal?)
  {
    var ids := LeafIds(tree);
    Single(nodes, tree);
    assert LinkedAt(design, nodes, ids, None, None, k);
    assert LinkedAt(design, nodes, ids, None, None, k - 1);
    DistinctLeaves([tree]);
    if k > 1 {
      assert ids[0] != ids[k - 1];
    }
  }

  lemma {:induction false} LeavesAreListed(nodes: seq<Node>, ts: seq<Tree>, i: nat)
    requires HeldForest(nodes, ts) && i in IdsOf(ts) && i < |nodes| && nodes[i].Leaf?
    ensures i in LeafIdsOf(ts)
    decreases ts
  {
    if i in Ids(ts[0]) {
      if ts[0].Branch? {
        LeavesAreListed(nodes, ts[0].kids, i);
      }
    } else {
      LeavesAreListed(nodes, ts[1..], i);
    }
  }

  /** Where no stale link is left, `next` and `prev` are inverse to each other on the
      leaves of the whole arena. */
  lemma LinksAreInverse(design: Design, nodes: seq<Node>, firstLeaf: nat, tree: Tree, height: nat, i: nat, j: nat)
    requires WellFormed(design, nodes, firstLeaf, tree, height) && !design.staleLink
    requires i < |nodes| && j < |nodes| && nodes[i].Leaf? && nodes[j].Leaf?
    ensures nodes[i].next == Some(j) <==> nodes[j].prev == Some(i)
  {
    var ids := LeafIds(tree);
    Single(nodes, tree);
    LeavesAreListed(nodes, [tree], i);
    LeavesAreListed(nodes, [tree], j);
    var a :| 0 <= a < |ids| && ids[a] == i;
    var b :| 0 <= b < |ids| && ids[b] == j;
    assert LinkedAt(design, nodes, ids, None, None, a) && LinkedAt(design, nodes, ids, None, None, b);
    assert a + 1 < |ids| ==> LinkedAt(design, nodes, ids, None, None, a + 1);
    assert b > 0 ==> LinkedAt(design, nodes, ids, None, None, b - 1);
    DistinctLeaves([tree]);
  }

  /** The wrong link does occur: every tree of three slots, such as the one after the
      first split, has it. */
  lemma ThreeSlotsHaveTheStaleLink(design: Design, nodes: seq<Node>, firstLeaf: nat, tree: Tree, height: nat)
    requires WellFormed(design, nodes, firstLeaf, tree, height) && |nodes| == 3 && design.staleLink
    ensures |LeafIds(tree)| > 1 && LeafIds(tree)[..2] == [2, 1]
    ensures nodes[1].Leaf? && nodes[1].prev == Some(0) && nodes[0].Internal?
  {
    Single(nodes, tree);
    DistinctLeaves([tree]);
    assert Ordered(design, [tree][0], height, LowOf([], None, 0), HighOf([], None, 0));
    TwoLeaves(design, tree.kids, tree.keys, height - 1, None, None);
    LeafIdsAreIds(tree.kids);
    var ids := LeafIds(tree);
    assert ids[0] in ids && ids[1] in ids;
    assert ids[1] in Ids(tree) && ids[1] != 0 && ids[1] != 2;
    BackwardLinksExactly(design, nodes, firstLeaf, tree, height, 1);
  }

  lemma {:induction false} TwoLeaves(design: Design, ts: seq<Tree>, seps: seq<Bytes>, h: nat, low: Option<Bytes>, high: Option<Bytes>)
    requires OrderedForest(design, ts, seps, h, low, high) && |seps| > 0
    ensures |LeafIdsOf(ts)| > 1
  {
    LeavesExist(design, ts[0], h, low, HighOf(seps, high, 0));
    CutForest(design, ts, seps, h, low, high, 0);
    ForestLeavesExist(design, ts[1..], seps[1..], h, Some(seps[0]), high);
  }

  // ---- Whole runs ----

  datatype Op =
    | InsertOp(key: Bytes, value: Bytes)
    | DeleteOp(key: Bytes)
    | GetOp(key: Bytes)
    | RangeOp(start: Bytes, end: Bytes)
    | LenOp
    | IsEmptyOp

  datatype Answer =
    | Inserted
    | Deleted(existed: bool)
    | Found(value: Option<Bytes>)
    | Listed(entries: seq<Entry<Bytes>>)
    | Counted(n: nat)
    | Empty(empty: bool)

  /** What an operation makes of a map. */
  function Changed(m: map<Bytes, Bytes>, op: Op): map<Bytes, Bytes> {
    match op
    case InsertOp(key, value) => m[key := value]
    case DeleteOp(key) => m - {key}
    case _ => m
  }

  /** The map after a run of operations. */
  function MapAfter(m: map<Bytes, Bytes>, ops: seq<Op>): map<Bytes, Bytes> {
    if ops == [] then m else Changed(MapAfter(m, ops[..|ops| - 1]), ops[|ops| - 1])
  }

  /** What a plain map answers to an operation. */
  ghost predicate Agrees(m: map<Bytes, Bytes>, op: Op, a: Answer) {
    match op
    case InsertOp(_, _) => a == Inserted
    case DeleteOp(key) => a == Deleted(key in m)
    case GetOp(key) => a == Found(if key in m then Some(m[key]) else None)
    case RangeOp(start, end) =>
      && a.Listed? && Sorted(a.entries)
      && forall e :: e in a.entries <==>
           e.key in m && m[e.key] == e.value && AtMost(start, e.key) && AtMost(e.key, end)
    case LenOp => a == Counted(|m|)
    case IsEmptyOp => a == Empty(m == map[])
  }

  /** Any run from the empty tree gives the answers of a plain map. */
  method RunFromNew(ops: seq<Op>) returns (answers: seq<Answer>)
    ensures |answers| == |ops|
    ensures forall i :: 0 <= i < |ops| ==> Agrees(MapAfter(map[], ops[..i]), ops[i], answers[i])
  {
    hide WellFormed, Agrees, Items, Content;
    var tree := new BTree();
    answers := [];
    for i := 0 to |ops|
      invariant fresh(tree) && tree.Valid() && tree.Model() == MapAfter(map[], ops[..i])
      invariant |answers| == i
      invariant forall j :: 0 <= j < i ==> Agrees(MapAfter(map[], ops[..j]), ops[j], answers[j])
    {
      assert ops[..i + 1][..i] == ops[..i];
      var answer := Answered(tree, ops[i]);
      answers := answers + [answer];
    }
  }

  method Answered(tree: BTree, op: Op) returns (answer: Answer)
    requires tree.Valid()
    modifies tree
    ensures tree.Valid()
    ensures Agrees(old(tree.Model()), op, answer)
    ensures tree.Model() == Changed(old(tree.Model()), op)
  {
    match op {
      case InsertOp(key, value) =>
        tree.Insert(key, value);
        answer := Inserted;
      case DeleteOp(key) =>
        var existed := tree.Delete(key);
        answer := Deleted(existed);
      case GetOp(key) =>
        var value := tree.Get(key);
        answer := Found(value);
      case RangeOp(start, end) =>
        var entries := tree.Range(start, end);
        answer := Listed(entries);
      case LenOp =>
        var n := tree.Len();
        answer := Counted(n);
      case IsEmptyOp =>
        var empty := tree.IsEmpty();
        answer := Empty(empty);
    }
  }
}
