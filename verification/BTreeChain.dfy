/** The leaf list as a view of the B+tree's contents. */
module BTreeChain {
  import opened ByteStrings
  import opened Options
  import opened SortedEntries
  import opened BTreeShape
  import opened BTreeParts
  import opened BTreeLeaf

  function NodeItems(nodes: seq<Node>, id: nat): seq<Entry<Bytes>> {
    if id < |nodes| && nodes[id].Leaf? && |nodes[id].keys| == |nodes[id].values|
    then Zip(nodes[id].keys, nodes[id].values)
    else []
  }

  /** The items met when walking over `ids`. */
  function ChainItems(nodes: seq<Node>, ids: seq<nat>): seq<Entry<Bytes>> {
    if ids == [] then [] else NodeItems(nodes, ids[0]) + ChainItems(nodes, ids[1..])
  }

  lemma {:induction false} ChainConcat(nodes: seq<Node>, a: seq<nat>, b: seq<nat>)
    ensures ChainItems(nodes, a + b) == ChainItems(nodes, a) + ChainItems(nodes, b)
  {
    if a == [] {
      assert a + b == b;
    } else {
      assert (a + b)[1..] == a[1..] + b;
      ChainConcat(nodes, a[1..], b);
    }
  }

  lemma ChainAt(nodes: seq<Node>, ids: seq<nat>, p: nat)
    requires p < |ids|
    ensures ChainItems(nodes, ids) ==
            ChainItems(nodes, ids[..p]) + NodeItems(nodes, ids[p]) + ChainItems(nodes, ids[p + 1..])
    ensures ChainItems(nodes, ids[..p + 1]) == ChainItems(nodes, ids[..p]) + NodeItems(nodes, ids[p])
  {
    hide ChainItems, NodeItems;
    assert ids == ids[..p + 1] + ids[p + 1..];
    assert ids[..p + 1] == ids[..p] + [ids[p]];
    ChainConcat(nodes, ids[..p + 1], ids[p + 1..]);
    ChainConcat(nodes, ids[..p], [ids[p]]);
    ChainOfOne(nodes, ids[p]);
  }

  lemma ChainOfOne(nodes: seq<Node>, id: nat)
    ensures ChainItems(nodes, [id]) == NodeItems(nodes, id)
  {
    assert [id][1..] == [];
  }

  lemma {:induction false} ChainFrame(nodes: seq<Node>, nodes': seq<Node>, ids: seq<nat>)
    requires forall i :: 0 <= i < |ids| ==> NodeItems(nodes', ids[i]) == NodeItems(nodes, ids[i])
    ensures ChainItems(nodes', ids) == ChainItems(nodes, ids)
  {
    if ids != [] {
      forall i | 0 <= i < |ids[1..]| ensures NodeItems(nodes', ids[1..][i]) == NodeItems(nodes, ids[1..][i]) {
        assert ids[1..][i] == ids[i + 1];
      }
      ChainFrame(nodes, nodes', ids[1..]);
    }
  }

  /** What a forest holds is what its leaves hold, in list order. */
  lemma {:induction false} ChainIsItems(nodes: seq<Node>, ts: seq<Tree>)
    requires HeldForest(nodes, ts)
    ensures ItemsOf(ts) == ChainItems(nodes, LeafIdsOf(ts))
    decreases ts
  {
    if ts != [] {
      ChainIsItems(nodes, ts[1..]);
      ChainConcat(nodes, LeafIds(ts[0]), LeafIdsOf(ts[1..]));
      match ts[0]
      case Tip(id, _, _) =>
        assert [id][1..] == [];
      case Branch(_, _, kids) =>
        ChainIsItems(nodes, kids);
    }
  }

  /** Going down towards `key`: the leaves to the left of the child hold smaller
      keys, those to the right larger ones. */
  lemma DescendChain(design: Design, nodes: seq<Node>, ts: seq<Tree>, seps: seq<Bytes>, h: nat, low: Option<Bytes>, high: Option<Bytes>, p: nat, key: Bytes)
    requires OrderedForest(design, ts, seps, h, low, high) && HeldForest(nodes, ts) && p <= |seps|
    requires InRange(key, LowOf(seps, low, p), HighOf(seps, high, p))
    ensures LeafIdsOf(ts) == LeafIdsOf(ts[..p]) + LeafIds(ts[p]) + LeafIdsOf(ts[p + 1..])
    ensures AllBelow(ChainItems(nodes, LeafIdsOf(ts[..p])), key)
    ensures AllAbove(ChainItems(nodes, LeafIdsOf(ts[p + 1..])), key)
  {
    assert ts == ts[..p] + [ts[p]] + ts[p + 1..];
    ForestAround(nodes, ts[..p], [ts[p]], ts[p + 1..]);
    Single(nodes, ts[p]);
    ItemsAround(design, ts, seps, h, low, high, p, key);
    ChainIsItems(nodes, ts[..p]);
    ChainIsItems(nodes, ts[p + 1..]);
  }

  /** Where a search stands: the subtree it has come down to, with the bounds, the
      neighbouring leaves and the leaves on either side. */
  datatype Descent = Descent(t: Tree, h: nat, low: Option<Bytes>, high: Option<Bytes>,
                             before: Option<nat>, after: Option<nat>, left: seq<nat>, right: seq<nat>)

  /** All leaves outside the subtree hold other keys than `key`. */
  ghost predicate Covering(design: Design, nodes: seq<Node>, ids: seq<nat>, key: Bytes, d: Descent) {
    && Part(design, nodes, [d.t], [], d.h, d.low, d.high, d.before, d.after)
    && InRange(key, d.low, d.high)
    && ids == d.left + LeafIds(d.t) + d.right
    && AllBelow(ChainItems(nodes, d.left), key)
    && AllAbove(ChainItems(nodes, d.right), key)
  }

  lemma CoveringStep(design: Design, nodes: seq<Node>, ids: seq<nat>, key: Bytes, d: Descent) returns (d': Descent)
    requires Covering(design, nodes, ids, key, d) && d.t.Branch?
    ensures Covering(design, nodes, ids, key, d')
    ensures d.t.id < |nodes| && nodes[d.t.id] == Internal(d.t.keys, Roots(d.t.kids))
    ensures CountAtMost(d.t.keys, key) < |d.t.kids|
    ensures d'.t == d.t.kids[CountAtMost(d.t.keys, key)]
    ensures |d.t.keys| + 1 == |d.t.kids| && d'.h < d.h
  {
    hide Part, InRange, ChainItems, AllBelow, AllAbove;
    var t := d.t;
    var pos := CountAtMost(t.keys, key);
    ChildPart(design, nodes, key, d);
    ChildChain(design, nodes, ids, key, d);
    var l, r := LeafIdsOf(t.kids[..pos]), LeafIdsOf(t.kids[pos + 1..]);
    d' := Descent(t.kids[pos], d.h - 1, LowOf(t.keys, d.low, pos), HighOf(t.keys, d.high, pos),
                  BeforeOf(l, d.before), AfterOf(r, d.after), d.left + l, r + d.right);
  }

  lemma ChildPart(design: Design, nodes: seq<Node>, key: Bytes, d: Descent)
    requires Part(design, nodes, [d.t], [], d.h, d.low, d.high, d.before, d.after)
    requires InRange(key, d.low, d.high) && d.t.Branch?
    ensures d.h > 0 && |d.t.keys| + 1 == |d.t.kids|
    ensures d.t.id < |nodes| && nodes[d.t.id] == Internal(d.t.keys, Roots(d.t.kids))
    ensures OrderedForest(design, d.t.kids, d.t.keys, d.h - 1, d.low, d.high) && HeldForest(nodes, d.t.kids)
    ensures var t, pos := d.t, CountAtMost(d.t.keys, key);
            && InRange(key, LowOf(t.keys, d.low, pos), HighOf(t.keys, d.high, pos))
            && Part(design, nodes, [t.kids[pos]], [], d.h - 1, LowOf(t.keys, d.low, pos), HighOf(t.keys, d.high, pos),
                    BeforeOf(LeafIdsOf(t.kids[..pos]), d.before), AfterOf(LeafIdsOf(t.kids[pos + 1..]), d.after))
  {
    Unwrap(design, nodes, d.t, d.h, d.low, d.high, d.before, d.after);
    ChildCovers(d.t.keys, key, d.low, d.high);
    Descend(design, nodes, d.t.kids, d.t.keys, d.h - 1, d.low, d.high, d.before, d.after, CountAtMost(d.t.keys, key));
  }

  lemma ChildChain(design: Design, nodes: seq<Node>, ids: seq<nat>, key: Bytes, d: Descent)
    requires d.t.Branch? && d.h > 0 && |d.t.keys| + 1 == |d.t.kids|
    requires OrderedForest(design, d.t.kids, d.t.keys, d.h - 1, d.low, d.high) && HeldForest(nodes, d.t.kids)
    requires InRange(key, d.low, d.high)
    requires ids == d.left + LeafIds(d.t) + d.right
    requires AllBelow(ChainItems(nodes, d.left), key) && AllAbove(ChainItems(nodes, d.right), key)
    ensures var t, pos := d.t, CountAtMost(d.t.keys, key);
            var l, r := LeafIdsOf(t.kids[..pos]), LeafIdsOf(t.kids[pos + 1..]);
            && ids == (d.left + l) + LeafIds(t.kids[pos]) + (r + d.right)
            && AllBelow(ChainItems(nodes, d.left + l), key)
            && AllAbove(ChainItems(nodes, r + d.right), key)
  {
    hide OrderedForest, HeldForest, InRange, LowOf, HighOf, AllBelow, AllAbove, ChainItems;
    var t, pos := d.t, CountAtMost(d.t.keys, key);
    ChildCovers(t.keys, key, d.low, d.high);
    DescendChain(design, nodes, t.kids, t.keys, d.h - 1, d.low, d.high, pos, key);
    var l, r := LeafIdsOf(t.kids[..pos]), LeafIdsOf(t.kids[pos + 1..]);
    ChainsAround(nodes, d.left, l, r, d.right, key);
    Regroup(d.left, l, LeafIds(t.kids[pos]), r, d.right);
  }

  lemma ChainsAround(nodes: seq<Node>, a: seq<nat>, b: seq<nat>, c: seq<nat>, d: seq<nat>, key: Bytes)
    requires AllBelow(ChainItems(nodes, a), key) && AllBelow(ChainItems(nodes, b), key)
    requires AllAbove(ChainItems(nodes, c), key) && AllAbove(ChainItems(nodes, d), key)
    ensures AllBelow(ChainItems(nodes, a + b), key) && AllAbove(ChainItems(nodes, c + d), key)
  {
    hide ChainItems;
    ChainConcat(nodes, a, b);
    ChainConcat(nodes, c, d);
  }

  lemma Regroup<T>(a: seq<T>, b: seq<T>, c: seq<T>, d: seq<T>, e: seq<T>)
    ensures a + (b + c + d) + e == (a + b) + c + (d + e)
  {
  }

  lemma CoveringLeaf(design: Design, nodes: seq<Node>, ids: seq<nat>, key: Bytes, d: Descent)
    requires Covering(design, nodes, ids, key, d) && d.t.Tip?
    ensures CoversKey(design, nodes, ids, |d.left|, key) && ids[|d.left|] == d.t.id
  {
    Single(nodes, d.t);
    assert Ordered(design, [d.t][0], d.h, LowOf([], d.low, 0), HighOf([], d.high, 0));
    assert ids[..|d.left|] == d.left && ids[|d.left| + 1..] == d.right;
  }

  /** The root of a part is in the arena, as a leaf or an internal node. */
  lemma RootNode(design: Design, nodes: seq<Node>, ids: seq<nat>, key: Bytes, d: Descent)
    requires Covering(design, nodes, ids, key, d)
    ensures d.t.id < |nodes| && nodes[d.t.id].Internal? == d.t.Branch?
  {
    Single(nodes, d.t);
  }

  // ---- Rewriting one leaf of a tree ----

  ghost function Redo(t: Tree, id: nat, keys: seq<Bytes>, values: seq<Bytes>): Tree {
    match t
    case Tip(i, _, _) => if i == id then Tip(id, keys, values) else t
    case Branch(i, seps, kids) => Branch(i, seps, RedoForest(kids, id, keys, values))
  }

  ghost function RedoForest(ts: seq<Tree>, id: nat, keys: seq<Bytes>, values: seq<Bytes>): (r: seq<Tree>)
    ensures |r| == |ts|
    ensures forall i :: 0 <= i < |r| ==> r[i] == Redo(ts[i], id, keys, values)
  {
    if ts == [] then [] else [Redo(ts[0], id, keys, values)] + RedoForest(ts[1..], id, keys, values)
  }

  lemma {:induction false} RedoHeld(nodes: seq<Node>, nodes': seq<Node>, ts: seq<Tree>, id: nat, keys: seq<Bytes>, values: seq<Bytes>)
    requires HeldForest(nodes, ts) && id < |nodes| && nodes[id].Leaf?
    requires nodes' == nodes[id := nodes[id].(keys := keys, values := values)]
    ensures var ts' := RedoForest(ts, id, keys, values);
            && HeldForest(nodes', ts')
            && LeafIdsOf(ts') == LeafIdsOf(ts) && IdsOf(ts') == IdsOf(ts) && Roots(ts') == Roots(ts)
    decreases ts
  {
    if ts != [] {
      RedoHeld(nodes, nodes', ts[1..], id, keys, values);
      var ts' := RedoForest(ts, id, keys, values);
      assert ts'[1..] == RedoForest(ts[1..], id, keys, values);
      if ts[0].Branch? {
        RedoHeld(nodes, nodes', ts[0].kids, id, keys, values);
      }
    }
  }

  lemma {:induction false} RedoDistinct(ts: seq<Tree>, id: nat, keys: seq<Bytes>, values: seq<Bytes>)
    requires DistinctForest(ts)
    ensures DistinctForest(RedoForest(ts, id, keys, values)) && IdsOf(RedoForest(ts, id, keys, values)) == IdsOf(ts)
    decreases ts
  {
    if ts != [] {
      var ts' := RedoForest(ts, id, keys, values);
      assert ts'[1..] == RedoForest(ts[1..], id, keys, values);
      RedoDistinct(ts[1..], id, keys, values);
      if ts[0].Branch? {
        RedoDistinct(ts[0].kids, id, keys, values);
      }
    }
  }

  /** Dropping keys from a leaf keeps the tree ordered. */
  lemma {:induction false} RedoOrdered(design: Design, nodes: seq<Node>, t: Tree, h: nat, low: Option<Bytes>, high: Option<Bytes>,
                                       id: nat, keys: seq<Bytes>, values: seq<Bytes>)
    requires Ordered(design, t, h, low, high) && Held(nodes, t)
    requires id < |nodes| && nodes[id].Leaf?
    requires |keys| == |values| < design.order && OrderedKeys(keys)
    requires forall i :: 0 <= i < |keys| ==> keys[i] in nodes[id].keys
    ensures Ordered(design, Redo(t, id, keys, values), h, low, high)
    decreases t
  {
    match t
    case Tip(i, ks, _) =>
      if i == id {
        forall j | 0 <= j < |keys| ensures InRange(keys[j], low, high) {
          assert keys[j] in ks;
        }
      }
    case Branch(_, seps, kids) =>
      forall i | 0 <= i < |kids|
        ensures Ordered(design, Redo(kids[i], id, keys, values), h - 1, LowOf(seps, low, i), HighOf(seps, high, i))
      {
        HeldMember(nodes, kids, i);
        RedoOrdered(design, nodes, kids[i], h - 1, LowOf(seps, low, i), HighOf(seps, high, i), id, keys, values);
      }
  }

  lemma {:induction false} HeldMember(nodes: seq<Node>, ts: seq<Tree>, i: nat)
    requires HeldForest(nodes, ts) && i < |ts|
    ensures Held(nodes, ts[i])
  {
    if i > 0 {
      HeldMember(nodes, ts[1..], i - 1);
    }
  }

  ghost predicate GoodLeaf(design: Design, n: Node) {
    n.Leaf? && |n.keys| == |n.values| < design.order && OrderedKeys(n.keys)
  }

  function WithoutKey(n: Node, pos: nat): Node
    requires n.Leaf? && pos < |n.keys| == |n.values|
  {
    n.(keys := RemoveAt(n.keys, pos), values := RemoveAt(n.values, pos))
  }

  lemma WithoutKeyItems(design: Design, nodes: seq<Node>, id: nat, key: Bytes)
    requires id < |nodes| && GoodLeaf(design, nodes[id]) && Search(nodes[id].keys, key).Some?
    ensures var nodes' := nodes[id := WithoutKey(nodes[id], Search(nodes[id].keys, key).value)];
            && GoodLeaf(design, nodes'[id])
            && (forall k :: k in nodes'[id].keys ==> k in nodes[id].keys)
            && NodeItems(nodes', id) == Remove(NodeItems(nodes, id), key)
  {
    LeafRemoval(nodes[id].keys, nodes[id].values, key);
  }

  /** The leaf at place `p` of the leaf list of `t` is the only one that can hold `key`. */
  ghost predicate CoversKey(design: Design, nodes: seq<Node>, ids: seq<nat>, p: nat, key: Bytes) {
    && p < |ids| && ids[p] < |nodes|
    && GoodLeaf(design, nodes[ids[p]])
    && AllBelow(ChainItems(nodes, ids[..p]), key)
    && AllAbove(ChainItems(nodes, ids[p + 1..]), key)
  }

  /** Removing a key from the leaf that covers it, in terms of the whole tree. */
  lemma LeafRemoved(design: Design, nodes: seq<Node>, t: Tree, h: nat, p: nat, key: Bytes)
    requires Part(design, nodes, [t], [], h, None, None, None, None)
    requires CoversKey(design, nodes, LeafIds(t), p, key)
    requires Search(nodes[LeafIds(t)[p]].keys, key).Some?
    ensures var id := LeafIds(t)[p];
            var nodes' := nodes[id := WithoutKey(nodes[id], Search(nodes[id].keys, key).value)];
            var t' := Redo(t, id, nodes'[id].keys, nodes'[id].values);
            && Part(design, nodes', [t'], [], h, None, None, None, None)
            && t'.id == t.id && t'.Tip? == t.Tip? && LeafIds(t') == LeafIds(t) && Ids(t') == Ids(t)
            && Items(t') == Remove(Items(t), key)
  {
    var ids := LeafIds(t);
    var id := ids[p];
    var nodes' := nodes[id := WithoutKey(nodes[id], Search(nodes[id].keys, key).value)];
    WithoutKeyItems(design, nodes, id, key);
    LeafRewritten(design, nodes, nodes', t, h, id);
    RemovedItems(nodes, nodes', t, Redo(t, id, nodes'[id].keys, nodes'[id].values), p, key);
  }

  lemma LeafRewritten(design: Design, nodes: seq<Node>, nodes': seq<Node>, t: Tree, h: nat, id: nat)
    requires Part(design, nodes, [t], [], h, None, None, None, None)
    requires id < |nodes| == |nodes'| && nodes[id].Leaf? && GoodLeaf(design, nodes'[id])
    requires nodes' == nodes[id := nodes[id].(keys := nodes'[id].keys, values := nodes'[id].values)]
    requires forall k :: k in nodes'[id].keys ==> k in nodes[id].keys
    ensures var t' := Redo(t, id, nodes'[id].keys, nodes'[id].values);
            && Part(design, nodes', [t'], [], h, None, None, None, None)
            && t'.id == t.id && t'.Tip? == t.Tip? && LeafIds(t') == LeafIds(t) && Ids(t') == Ids(t)
            && Held(nodes', t') && Held(nodes, t) && Distinct(t)
  {
    var keys, values := nodes'[id].keys, nodes'[id].values;
    var t' := Redo(t, id, keys, values);
    Single(nodes, t);
    Single(nodes', t');
    assert RedoForest([t], id, keys, values) == [t'] by {
      assert [t][1..] == [];
    }
    RedoHeld(nodes, nodes', [t], id, keys, values);
    RedoDistinct([t], id, keys, values);
    assert Ordered(design, [t][0], h, LowOf([], None, 0), HighOf([], None, 0));
    RedoOrdered(design, nodes, t, h, None, None, id, keys, values);
    assert OrderedForest(design, [t'], [], h, None, None);
    RelinkedKeys(design, nodes, nodes', LeafIds(t), None, None, id);
  }

  lemma RelinkedKeys(design: Design, nodes: seq<Node>, nodes': seq<Node>, ids: seq<nat>, before: Option<nat>, after: Option<nat>, id: nat)
    requires Linked(design, nodes, ids, before, after) && id < |nodes| && nodes[id].Leaf?
    requires |nodes'| == |nodes| && nodes'[id].Leaf? && nodes' == nodes[id := nodes[id].(keys := nodes'[id].keys, values := nodes'[id].values)]
    ensures Linked(design, nodes', ids, before, after)
  {
    forall k | 0 <= k < |ids| ensures LinkedAt(design, nodes', ids, before, after, k) {
      assert LinkedAt(design, nodes, ids, before, after, k);
    }
  }

  lemma RemovedItems(nodes: seq<Node>, nodes': seq<Node>, t: Tree, t': Tree, p: nat, key: Bytes)
    requires Held(nodes, t) && Held(nodes', t') && Distinct(t)
    requires LeafIds(t') == LeafIds(t) && p < |LeafIds(t)|
    requires |nodes'| == |nodes| && forall i :: 0 <= i < |nodes| && i != LeafIds(t)[p] ==> nodes'[i] == nodes[i]
    requires NodeItems(nodes', LeafIds(t)[p]) == Remove(NodeItems(nodes, LeafIds(t)[p]), key)
    requires AllBelow(ChainItems(nodes, LeafIds(t)[..p]), key)
    requires AllAbove(ChainItems(nodes, LeafIds(t)[p + 1..]), key)
    ensures Items(t') == Remove(Items(t), key)
  {
    var ids := LeafIds(t);
    var a, c := ids[..p], ids[p + 1..];
    assert Items(t) == ChainItems(nodes, ids) by { Single(nodes, t); ChainIsItems(nodes, [t]); }
    assert Items(t') == ChainItems(nodes', ids) by { Single(nodes', t'); ChainIsItems(nodes', [t']); }
    ChainAt(nodes, ids, p);
    ChainAt(nodes', ids, p);
    ChainRest(nodes, nodes', t, p);
    OnlyTheMiddleMatters(ChainItems(nodes, a), NodeItems(nodes, ids[p]), ChainItems(nodes, c), key, []);
  }

  lemma ChainRest(nodes: seq<Node>, nodes': seq<Node>, t: Tree, p: nat)
    requires Distinct(t) && p < |LeafIds(t)|
    requires |nodes'| == |nodes| && forall i :: 0 <= i < |nodes| && i != LeafIds(t)[p] ==> nodes'[i] == nodes[i]
    ensures ChainItems(nodes', LeafIds(t)[..p]) == ChainItems(nodes, LeafIds(t)[..p])
    ensures ChainItems(nodes', LeafIds(t)[p + 1..]) == ChainItems(nodes, LeafIds(t)[p + 1..])
  {
    Single(nodes, t);
    DistinctLeaves([t]);
    ChainFrame(nodes, nodes', LeafIds(t)[..p]);
    ChainFrame(nodes, nodes', LeafIds(t)[p + 1..]);
  }

  /** Every leaf of a forest holds as many values as keys. */
  lemma {:induction false} LeavesPaired(design: Design, nodes: seq<Node>, ts: seq<Tree>, seps: seq<Bytes>, h: nat, low: Option<Bytes>, high: Option<Bytes>, p: nat)
    requires OrderedForest(design, ts, seps, h, low, high) && HeldForest(nodes, ts) && p < |LeafIdsOf(ts)|
    ensures LeafIdsOf(ts)[p] < |nodes| && GoodLeaf(design, nodes[LeafIdsOf(ts)[p]])
    decreases ts
  {
    var t := ts[0];
    assert Ordered(design, t, h, low, HighOf(seps, high, 0));
    if p < |LeafIds(t)| {
      if t.Branch? {
        LeavesPaired(design, nodes, t.kids, t.keys, h - 1, low, HighOf(seps, high, 0), p);
      }
    } else if seps != [] {
      CutForest(design, ts, seps, h, low, high, 0);
      LeavesPaired(design, nodes, ts[1..], seps[1..], h, Some(seps[0]), high, p - |LeafIds(t)|);
    }
  }
}
