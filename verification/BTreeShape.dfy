/** The shape behind the nodes of a B+tree, in memory or on pages.

    A `Tree` value records, for a part of the arena, which node hangs below which.
    The predicates of this module say what a well-formed part looks like; its
    lemmas say how parts are cut, spliced and framed. They are about forests
    (sequences of trees with separator keys between them) because a split turns
    one subtree into two. */
module BTreeShape {
  import opened ByteStrings
  import opened Options
  import opened SortedEntries

  /** What differs between the trees: an internal node has at most `order` children, a
      full leaf keeps its first `mid` keys when it splits, and the first split of the root
      may leave one backward link stale. */
  datatype Parameters = Parameters(order: nat, mid: nat, staleLink: bool)

  type Design = d: Parameters | 4 <= d.order && 0 < d.mid < d.order - 1
    witness Parameters(4, 2, true)

  datatype Node =
    | Internal(keys: seq<Bytes>, children: seq<nat>)
    | Leaf(keys: seq<Bytes>, values: seq<Bytes>, prev: Option<nat>, next: Option<nat>)

  datatype Tree =
    | Tip(id: nat, keys: seq<Bytes>, values: seq<Bytes>)
    | Branch(id: nat, keys: seq<Bytes>, kids: seq<Tree>)

  function Zip(keys: seq<Bytes>, values: seq<Bytes>): (s: seq<Entry<Bytes>>)
    requires |keys| == |values|
    ensures |s| == |keys|
    ensures forall i :: 0 <= i < |s| ==> s[i] == Entry(keys[i], values[i])
  {
    seq(|keys|, i requires 0 <= i < |keys| => Entry(keys[i], values[i]))
  }

  // ---- What a forest holds ----

  ghost function Items(t: Tree): seq<Entry<Bytes>> {
    match t
    case Tip(_, keys, values) => if |keys| == |values| then Zip(keys, values) else []
    case Branch(_, _, kids) => ItemsOf(kids)
  }

  ghost function ItemsOf(ts: seq<Tree>): seq<Entry<Bytes>> {
    if ts == [] then [] else Items(ts[0]) + ItemsOf(ts[1..])
  }

  /** The leaves from left to right. */
  ghost function LeafIds(t: Tree): seq<nat> {
    match t
    case Tip(id, _, _) => [id]
    case Branch(_, _, kids) => LeafIdsOf(kids)
  }

  ghost function LeafIdsOf(ts: seq<Tree>): seq<nat> {
    if ts == [] then [] else LeafIds(ts[0]) + LeafIdsOf(ts[1..])
  }

  ghost function Ids(t: Tree): set<nat> {
    match t
    case Tip(id, _, _) => {id}
    case Branch(id, _, kids) => {id} + IdsOf(kids)
  }

  ghost function IdsOf(ts: seq<Tree>): set<nat> {
    if ts == [] then {} else Ids(ts[0]) + IdsOf(ts[1..])
  }

  ghost function Roots(ts: seq<Tree>): (r: seq<nat>)
    ensures |r| == |ts| && forall i :: 0 <= i < |r| ==> r[i] == ts[i].id
  {
    seq(|ts|, i requires 0 <= i < |ts| => ts[i].id)
  }

  // ---- Order and balance ----

  predicate AtLeast(key: Bytes, low: Option<Bytes>) {
    low.Some? ==> AtMost(low.value, key)
  }

  predicate StrictlyAbove(key: Bytes, low: Option<Bytes>) {
    low.Some? ==> Less(low.value, key)
  }

  predicate StrictlyBelow(key: Bytes, high: Option<Bytes>) {
    high.Some? ==> Less(key, high.value)
  }

  predicate InRange(key: Bytes, low: Option<Bytes>, high: Option<Bytes>) {
    AtLeast(key, low) && StrictlyBelow(key, high)
  }

  ghost predicate OrderedKeys(keys: seq<Bytes>) {
    forall i, j :: 0 <= i < j < |keys| ==> Less(keys[i], keys[j])
  }

  function LowOf(keys: seq<Bytes>, low: Option<Bytes>, i: nat): Option<Bytes>
    requires i <= |keys|
  {
    if i == 0 then low else Some(keys[i - 1])
  }

  function HighOf(keys: seq<Bytes>, high: Option<Bytes>, i: nat): Option<Bytes>
    requires i <= |keys|
  {
    if i == |keys| then high else Some(keys[i])
  }

  /** All leaves of `t` are `h` levels down, every node has at most three keys,
      children are one more than keys, and all keys respect the separators above. */
  ghost predicate Ordered(design: Design, t: Tree, h: nat, low: Option<Bytes>, high: Option<Bytes>) {
    match t
    case Tip(_, keys, values) =>
      && h == 0
      && |keys| == |values| < design.order
      && OrderedKeys(keys)
      && forall i :: 0 <= i < |keys| ==> InRange(keys[i], low, high)
    case Branch(_, keys, kids) =>
      && h > 0
      && 0 < |keys| < design.order
      && OrderedForest(design, kids, keys, h - 1, low, high)
  }

  ghost predicate OrderedForest(design: Design, ts: seq<Tree>, seps: seq<Bytes>, h: nat, low: Option<Bytes>, high: Option<Bytes>) {
    && |ts| == |seps| + 1
    && OrderedKeys(seps)
    && (forall i :: 0 <= i < |seps| ==> StrictlyAbove(seps[i], low) && StrictlyBelow(seps[i], high))
    && (forall i :: 0 <= i < |ts| ==> Ordered(design, ts[i], h, LowOf(seps, low, i), HighOf(seps, high, i)))
  }

  // ---- Presence in the arena ----

  ghost predicate Held(nodes: seq<Node>, t: Tree) {
    && t.id < |nodes|
    && match t
       case Tip(id, keys, values) => nodes[id].Leaf? && nodes[id].keys == keys && nodes[id].values == values
       case Branch(id, keys, kids) => nodes[id] == Internal(keys, Roots(kids)) && HeldForest(nodes, kids)
  }

  ghost predicate HeldForest(nodes: seq<Node>, ts: seq<Tree>) {
    ts != [] ==> Held(nodes, ts[0]) && HeldForest(nodes, ts[1..])
  }

  /** No node is used twice. */
  ghost predicate Distinct(t: Tree) {
    t.Branch? ==> t.id !in IdsOf(t.kids) && DistinctForest(t.kids)
  }

  ghost predicate DistinctForest(ts: seq<Tree>) {
    ts != [] ==> Distinct(ts[0]) && DistinctForest(ts[1..]) && Ids(ts[0]) !! IdsOf(ts[1..])
  }

  // ---- The leaf list ----

  /** The `prev` link that leaf `id` carries when `before` precedes it. Where the stale
      link is left, the right half of the first root split keeps pointing at slot 0, where
      the root branch then lives: its left neighbour moved to slot 2. */
  function Back(design: Design, before: Option<nat>, id: nat): Option<nat> {
    if design.staleLink && before == Some(2) && id == 1 then Some(0) else before
  }

  ghost predicate LinkedAt(design: Design, nodes: seq<Node>, ids: seq<nat>, before: Option<nat>, after: Option<nat>, k: nat)
    requires k < |ids|
  {
    && ids[k] < |nodes|
    && nodes[ids[k]].Leaf?
    && nodes[ids[k]].next == (if k + 1 < |ids| then Some(ids[k + 1]) else after)
    && nodes[ids[k]].prev == Back(design, if k == 0 then before else Some(ids[k - 1]), ids[k])
  }

  /** The leaves `ids` form a stretch of the leaf list between `before` and `after`. */
  ghost predicate Linked(design: Design, nodes: seq<Node>, ids: seq<nat>, before: Option<nat>, after: Option<nat>) {
    forall k :: 0 <= k < |ids| ==> LinkedAt(design, nodes, ids, before, after, k)
  }

  /** `after` is a leaf outside `ids` that points back at `last`. */
  ghost predicate FollowedBy(design: Design, nodes: seq<Node>, ids: set<nat>, last: nat, after: Option<nat>) {
    after.Some? ==>
      && after.value < |nodes|
      && after.value !in ids
      && nodes[after.value].Leaf?
      && nodes[after.value].prev == Back(design, Some(last), after.value)
  }

  function Last<T>(s: seq<T>): T
    requires s != []
  {
    s[|s| - 1]
  }

  /** Everything that is kept true of a part of the tree. */
  ghost predicate Part(design: Design, nodes: seq<Node>, ts: seq<Tree>, seps: seq<Bytes>, h: nat,
                       low: Option<Bytes>, high: Option<Bytes>, before: Option<nat>, after: Option<nat>) {
    && OrderedForest(design, ts, seps, h, low, high)
    && HeldForest(nodes, ts)
    && DistinctForest(ts)
    && LeafIdsOf(ts) != []
    && Linked(design, nodes, LeafIdsOf(ts), before, after)
    && FollowedBy(design, nodes, IdsOf(ts), Last(LeafIdsOf(ts)), after)
  }

  /** Outside `ids`, old nodes are unchanged but for the `prev` link of `after`. */
  ghost predicate Framed(nodes: seq<Node>, nodes': seq<Node>, ids: set<nat>, after: Option<nat>) {
    && |nodes| <= |nodes'|
    && forall i :: 0 <= i < |nodes| && i !in ids ==>
         if after == Some(i) then SameButPrev(nodes[i], nodes'[i]) else nodes'[i] == nodes[i]
  }

  predicate SameButPrev(n: Node, n': Node) {
    n' == n || (n.Leaf? && n'.Leaf? && n' == n.(prev := n'.prev))
  }

  /** `ids` together with the slots appended between `nodes` and `nodes'`. */
  ghost predicate Grown(nodes: seq<Node>, nodes': seq<Node>, ids: set<nat>, ids': set<nat>) {
    forall i :: i in ids' <==> i in ids || |nodes| <= i < |nodes'|
  }

  // ---- Forests and concatenation ----

  lemma {:induction false} ViewsConcat(a: seq<Tree>, b: seq<Tree>)
    ensures ItemsOf(a + b) == ItemsOf(a) + ItemsOf(b)
    ensures LeafIdsOf(a + b) == LeafIdsOf(a) + LeafIdsOf(b)
    ensures IdsOf(a + b) == IdsOf(a) + IdsOf(b)
  {
    hide Items, LeafIds, Ids;
    if a == [] {
      assert a + b == b;
    } else {
      assert (a + b)[0] == a[0] && (a + b)[1..] == a[1..] + b;
      ViewsConcat(a[1..], b);
      Reassociate(Items(a[0]), ItemsOf(a[1..]), ItemsOf(b));
      Reassociate(LeafIds(a[0]), LeafIdsOf(a[1..]), LeafIdsOf(b));
      assert Ids(a[0]) + (IdsOf(a[1..]) + IdsOf(b)) == (Ids(a[0]) + IdsOf(a[1..])) + IdsOf(b);
    }
  }

  lemma Reassociate<T>(a: seq<T>, b: seq<T>, c: seq<T>)
    ensures a + (b + c) == (a + b) + c
  {
  }

  lemma {:induction false} ForestConcat(nodes: seq<Node>, a: seq<Tree>, b: seq<Tree>)
    ensures ItemsOf(a + b) == ItemsOf(a) + ItemsOf(b)
    ensures LeafIdsOf(a + b) == LeafIdsOf(a) + LeafIdsOf(b)
    ensures IdsOf(a + b) == IdsOf(a) + IdsOf(b)
    ensures HeldForest(nodes, a + b) <==> HeldForest(nodes, a) && HeldForest(nodes, b)
    ensures DistinctForest(a + b) <==> DistinctForest(a) && DistinctForest(b) && IdsOf(a) !! IdsOf(b)
  {
    hide Items, LeafIds, Ids, Held, Distinct, ItemsOf, LeafIdsOf;
    ViewsConcat(a, b);
    if a == [] {
      assert a + b == b;
    } else {
      assert (a + b)[1..] == a[1..] + b;
      ForestConcat(nodes, a[1..], b);
      ViewsConcat(a[1..], b);
    }
  }

  lemma ForestAround(nodes: seq<Node>, a: seq<Tree>, b: seq<Tree>, c: seq<Tree>)
    ensures ItemsOf(a + b + c) == ItemsOf(a) + ItemsOf(b) + ItemsOf(c)
    ensures LeafIdsOf(a + b + c) == LeafIdsOf(a) + LeafIdsOf(b) + LeafIdsOf(c)
    ensures IdsOf(a + b + c) == IdsOf(a) + IdsOf(b) + IdsOf(c)
    ensures HeldForest(nodes, a + b + c) <==> HeldForest(nodes, a) && HeldForest(nodes, b) && HeldForest(nodes, c)
    ensures DistinctForest(a + b + c) <==>
            && DistinctForest(a) && DistinctForest(b) && DistinctForest(c)
            && IdsOf(a) !! IdsOf(b) && IdsOf(a) !! IdsOf(c) && IdsOf(b) !! IdsOf(c)
  {
    ForestConcat(nodes, a + b, c);
    ForestConcat(nodes, a, b);
  }

  lemma Single(nodes: seq<Node>, t: Tree)
    ensures ItemsOf([t]) == Items(t)
    ensures LeafIdsOf([t]) == LeafIds(t)
    ensures IdsOf([t]) == Ids(t)
    ensures HeldForest(nodes, [t]) <==> Held(nodes, t)
    ensures DistinctForest([t]) <==> Distinct(t)
  {
    assert [t][1..] == [];
  }

  lemma Pair(nodes: seq<Node>, t: Tree, u: Tree)
    ensures ItemsOf([t, u]) == Items(t) + Items(u)
    ensures LeafIdsOf([t, u]) == LeafIds(t) + LeafIds(u)
    ensures IdsOf([t, u]) == Ids(t) + Ids(u)
    ensures HeldForest(nodes, [t, u]) <==> Held(nodes, t) && Held(nodes, u)
    ensures DistinctForest([t, u]) <==> Distinct(t) && Distinct(u) && Ids(t) !! Ids(u)
  {
    assert [t, u][1..] == [u];
    Single(nodes, u);
  }

  // ---- Cutting and splicing ordered forests ----

  lemma CutForest(design: Design, ts: seq<Tree>, seps: seq<Bytes>, h: nat, low: Option<Bytes>, high: Option<Bytes>, m: nat)
    requires OrderedForest(design, ts, seps, h, low, high) && m < |seps|
    ensures OrderedForest(design, ts[..m + 1], seps[..m], h, low, Some(seps[m]))
    ensures OrderedForest(design, ts[m + 1..], seps[m + 1..], h, Some(seps[m]), high)
    ensures StrictlyAbove(seps[m], low) && StrictlyBelow(seps[m], high)
  {
    forall i | 0 <= i < m + 1
      ensures Ordered(design, ts[..m + 1][i], h, LowOf(seps[..m], low, i), HighOf(seps[..m], Some(seps[m]), i))
    {
      assert ts[..m + 1][i] == ts[i];
    }
    var rest := ts[m + 1..];
    forall i | 0 <= i < |rest|
      ensures Ordered(design, rest[i], h, LowOf(seps[m + 1..], Some(seps[m]), i), HighOf(seps[m + 1..], high, i))
    {
      assert rest[i] == ts[m + 1 + i];
    }
  }

  lemma SpliceForest(design: Design, ts: seq<Tree>, seps: seq<Bytes>, h: nat, low: Option<Bytes>, high: Option<Bytes>,
                     p: nat, us: seq<Tree>, useps: seq<Bytes>)
    requires OrderedForest(design, ts, seps, h, low, high) && p <= |seps|
    requires OrderedForest(design, us, useps, h, LowOf(seps, low, p), HighOf(seps, high, p))
    ensures OrderedForest(design, ts[..p] + us + ts[p + 1..], seps[..p] + useps + seps[p..], h, low, high)
  {
    var ks := seps[..p] + useps + seps[p..];
    var n := |useps|;
    SpliceKeys(seps, low, high, p, useps);
    var vs := ts[..p] + us + ts[p + 1..];
    forall i | 0 <= i < |vs| ensures Ordered(design, vs[i], h, LowOf(ks, low, i), HighOf(ks, high, i)) {
      if i < p {
        assert vs[i] == ts[i];
      } else if i <= p + n {
        assert vs[i] == us[i - p];
      } else {
        assert vs[i] == ts[i - n];
      }
    }
  }

  lemma SpliceKeys(seps: seq<Bytes>, low: Option<Bytes>, high: Option<Bytes>, p: nat, useps: seq<Bytes>)
    requires OrderedKeys(seps) && OrderedKeys(useps) && p <= |seps|
    requires forall i :: 0 <= i < |seps| ==> StrictlyAbove(seps[i], low) && StrictlyBelow(seps[i], high)
    requires forall i :: 0 <= i < |useps| ==>
               StrictlyAbove(useps[i], LowOf(seps, low, p)) && StrictlyBelow(useps[i], HighOf(seps, high, p))
    ensures OrderedKeys(seps[..p] + useps + seps[p..])
    ensures forall i :: 0 <= i < |seps| + |useps| ==>
              var k := (seps[..p] + useps + seps[p..])[i];
              StrictlyAbove(k, low) && StrictlyBelow(k, high)
  {
    LessIsStrictTotalOrder();
    forall i, j | 0 <= i < p && 0 <= j < |useps| ensures Less(seps[i], useps[j]) {
      assert i < p - 1 ==> Less(seps[i], seps[p - 1]);
    }
    forall i, j | p <= i < |seps| && 0 <= j < |useps| ensures Less(useps[j], seps[i]) {
      assert p < i ==> Less(seps[p], seps[i]);
    }
  }

  // ---- The items of an ordered forest ----

  lemma {:induction false} ItemsInOrder(design: Design, t: Tree, h: nat, low: Option<Bytes>, high: Option<Bytes>)
    requires Ordered(design, t, h, low, high)
    ensures Sorted(Items(t))
    ensures forall i :: 0 <= i < |Items(t)| ==> InRange(Items(t)[i].key, low, high)
    decreases t
  {
    if t.Branch? {
      ForestItemsInOrder(design, t.kids, t.keys, h - 1, low, high);
    }
  }

  lemma {:induction false} ForestItemsInOrder(design: Design, ts: seq<Tree>, seps: seq<Bytes>, h: nat, low: Option<Bytes>, high: Option<Bytes>)
    requires OrderedForest(design, ts, seps, h, low, high)
    ensures Sorted(ItemsOf(ts))
    ensures forall i :: 0 <= i < |ItemsOf(ts)| ==> InRange(ItemsOf(ts)[i].key, low, high)
    decreases ts
  {
    ItemsInOrder(design, ts[0], h, low, HighOf(seps, high, 0));
    if seps == [] {
      assert ItemsOf(ts[1..]) == [];
    } else {
      CutForest(design, ts, seps, h, low, high, 0);
      ForestItemsInOrder(design, ts[1..], seps[1..], h, Some(seps[0]), high);
      JoinItems(Items(ts[0]), ItemsOf(ts[1..]), low, seps[0], high);
    }
  }

  lemma JoinItems(a: seq<Entry<Bytes>>, b: seq<Entry<Bytes>>, low: Option<Bytes>, sep: Bytes, high: Option<Bytes>)
    requires Sorted(a) && Sorted(b)
    requires StrictlyAbove(sep, low) && StrictlyBelow(sep, high)
    requires forall i :: 0 <= i < |a| ==> InRange(a[i].key, low, Some(sep))
    requires forall i :: 0 <= i < |b| ==> InRange(b[i].key, Some(sep), high)
    ensures Sorted(a + b)
    ensures forall i :: 0 <= i < |a + b| ==> InRange((a + b)[i].key, low, high)
  {
    LessIsStrictTotalOrder();
    forall i, j | 0 <= i < |a| && 0 <= j < |b| ensures Less(a[i].key, b[j].key) {
      assert InRange(a[i].key, low, Some(sep)) && InRange(b[j].key, Some(sep), high);
    }
    forall i | 0 <= i < |a| ensures InRange(a[i].key, low, high) {
      assert InRange(a[i].key, low, Some(sep));
    }
    forall i | 0 <= i < |b| ensures InRange(b[i].key, low, high) {
      assert InRange(b[i].key, Some(sep), high);
    }
  }

  /** Only the subtree between the separators around `key` can hold `key`. */
  lemma ItemsAround(design: Design, ts: seq<Tree>, seps: seq<Bytes>, h: nat, low: Option<Bytes>, high: Option<Bytes>, p: nat, key: Bytes)
    requires OrderedForest(design, ts, seps, h, low, high) && p <= |seps|
    requires InRange(key, LowOf(seps, low, p), HighOf(seps, high, p))
    ensures AllBelow(ItemsOf(ts[..p]), key) && AllAbove(ItemsOf(ts[p + 1..]), key)
  {
    LessIsStrictTotalOrder();
    if p > 0 {
      CutForest(design, ts, seps, h, low, high, p - 1);
      ForestItemsInOrder(design, ts[..p], seps[..p - 1], h, low, Some(seps[p - 1]));
      var left := ItemsOf(ts[..p]);
      forall i | 0 <= i < |left| ensures Less(left[i].key, key) {
        assert InRange(left[i].key, low, Some(seps[p - 1]));
      }
    }
    if p < |seps| {
      CutForest(design, ts, seps, h, low, high, p);
      ForestItemsInOrder(design, ts[p + 1..], seps[p + 1..], h, Some(seps[p]), high);
      var right := ItemsOf(ts[p + 1..]);
      forall i | 0 <= i < |right| ensures Less(key, right[i].key) {
        assert InRange(right[i].key, Some(seps[p]), high);
      }
    }
  }

  // ---- Leaf lists ----

  lemma {:induction false} LeavesExist(design: Design, t: Tree, h: nat, low: Option<Bytes>, high: Option<Bytes>)
    requires Ordered(design, t, h, low, high)
    ensures LeafIds(t) != [] && forall i :: i in LeafIds(t) ==> i in Ids(t)
    ensures t.Branch? ==> forall i :: i in LeafIds(t) ==> i in IdsOf(t.kids)
    decreases t
  {
    if t.Branch? {
      ForestLeavesExist(design, t.kids, t.keys, h - 1, low, high);
    }
  }

  lemma {:induction false} ForestLeavesExist(design: Design, ts: seq<Tree>, seps: seq<Bytes>, h: nat, low: Option<Bytes>, high: Option<Bytes>)
    requires OrderedForest(design, ts, seps, h, low, high)
    ensures LeafIdsOf(ts) != [] && forall i :: i in LeafIdsOf(ts) ==> i in IdsOf(ts)
    decreases ts
  {
    LeavesExist(design, ts[0], h, low, HighOf(seps, high, 0));
    if seps == [] {
      assert LeafIdsOf(ts[1..]) == [];
    } else {
      CutForest(design, ts, seps, h, low, high, 0);
      ForestLeavesExist(design, ts[1..], seps[1..], h, Some(seps[0]), high);
    }
  }

  /** The first and last neighbours of the middle of `a + b + c`. */
  function BeforeOf(a: seq<nat>, before: Option<nat>): Option<nat> {
    if a == [] then before else Some(Last(a))
  }

  function AfterOf(c: seq<nat>, after: Option<nat>): Option<nat> {
    if c == [] then after else Some(c[0])
  }

  lemma LinkedMiddle(design: Design, nodes: seq<Node>, a: seq<nat>, b: seq<nat>, c: seq<nat>, before: Option<nat>, after: Option<nat>)
    requires Linked(design, nodes, a + b + c, before, after)
    ensures Linked(design, nodes, b, BeforeOf(a, before), AfterOf(c, after))
  {
    forall k | 0 <= k < |b| ensures LinkedAt(design, nodes, b, BeforeOf(a, before), AfterOf(c, after), k) {
      assert LinkedAt(design, nodes, a + b + c, before, after, |a| + k);
    }
  }

  /** Replacing the middle of a leaf list, with the end of the left part and the start
      of the right part relinked, gives a leaf list again. */
  lemma LinkedSplice(design: Design, nodes: seq<Node>, nodes': seq<Node>, a: seq<nat>, b: seq<nat>, b': seq<nat>, c: seq<nat>,
                     before: Option<nat>, after: Option<nat>)
    requires b != [] && b' != [] && b'[0] == b[0]
    requires Linked(design, nodes, a + b + c, before, after)
    requires Linked(design, nodes', b', BeforeOf(a, before), AfterOf(c, after))
    requires forall i :: i in a ==> i < |nodes| && i < |nodes'| && nodes'[i] == nodes[i]
    requires forall i :: 0 <= i < |c| ==> c[i] < |nodes| && c[i] < |nodes'| && SameButPrev(nodes[c[i]], nodes'[c[i]])
    requires forall i :: 1 <= i < |c| ==> nodes'[c[i]] == nodes[c[i]]
    requires c != [] ==> nodes'[c[0]].Leaf? && nodes'[c[0]].prev == Back(design, Some(Last(b')), c[0])
    ensures Linked(design, nodes', a + b' + c, before, after)
  {
    var all, all' := a + b + c, a + b' + c;
    forall k | 0 <= k < |all'| ensures LinkedAt(design, nodes', all', before, after, k) {
      if k < |a| {
        assert LinkedAt(design, nodes, all, before, after, k);
        assert all[k] == all'[k] == a[k] && all[k] in a;
        assert all[k + 1] == all'[k + 1];
      } else if k < |a| + |b'| {
        assert LinkedAt(design, nodes', b', BeforeOf(a, before), AfterOf(c, after), k - |a|);
      } else {
        var d := |b'| - |b|;
        assert LinkedAt(design, nodes, all, before, after, k - d);
        assert all[k - d] == all'[k] == c[k - |a| - |b'|];
      }
    }
  }

  // ---- Framing ----

  /** A forest none of whose nodes changed but for links is still held. */
  lemma {:induction false} HeldFrame(nodes: seq<Node>, nodes': seq<Node>, t: Tree)
    requires Held(nodes, t)
    requires forall i :: i in Ids(t) && i < |nodes| ==> i < |nodes'| && SameButPrev(nodes[i], nodes'[i])
    ensures Held(nodes', t)
    decreases t
  {
    assert t.id in Ids(t);
    if t.Branch? {
      ForestHeldFrame(nodes, nodes', t.kids);
    }
  }

  lemma {:induction false} ForestHeldFrame(nodes: seq<Node>, nodes': seq<Node>, ts: seq<Tree>)
    requires HeldForest(nodes, ts)
    requires forall i :: i in IdsOf(ts) && i < |nodes| ==> i < |nodes'| && SameButPrev(nodes[i], nodes'[i])
    ensures HeldForest(nodes', ts)
    decreases ts
  {
    if ts != [] {
      assert Ids(ts[0]) <= IdsOf(ts) && IdsOf(ts[1..]) <= IdsOf(ts);
      HeldFrame(nodes, nodes', ts[0]);
      ForestHeldFrame(nodes, nodes', ts[1..]);
    }
  }

  lemma {:induction false} HeldIdsBound(nodes: seq<Node>, ts: seq<Tree>)
    requires HeldForest(nodes, ts)
    ensures forall i :: i in IdsOf(ts) ==> i < |nodes|
    decreases ts
  {
    if ts != [] {
      assert IdsOf(ts) == Ids(ts[0]) + IdsOf(ts[1..]);
      HeldIdsBound(nodes, ts[1..]);
      if ts[0].Branch? {
        assert Ids(ts[0]) == {ts[0].id} + IdsOf(ts[0].kids);
        HeldIdsBound(nodes, ts[0].kids);
      } else {
        assert Ids(ts[0]) == {ts[0].id};
      }
    }
  }
}
