/** Searching and changing the keys of one node of the B+tree. */
module BTreeLeaf {
  import opened ByteStrings
  import opened Options
  import opened SortedEntries
  import opened BTreeShape
  import opened BTreeParts

  function InsertAt<T>(s: seq<T>, p: nat, x: T): seq<T>
    requires p <= |s|
  {
    s[..p] + [x] + s[p..]
  }

  function RemoveAt<T>(s: seq<T>, p: nat): seq<T>
    requires p < |s|
  {
    s[..p] + s[p + 1..]
  }

  /** How many keys at the front are at most `key`: the child to follow. */
  function CountAtMost(keys: seq<Bytes>, key: Bytes): (p: nat)
    ensures p <= |keys|
    ensures forall i :: 0 <= i < p ==> AtMost(keys[i], key)
    ensures p < |keys| ==> Less(key, keys[p])
  {
    if keys == [] || Less(key, keys[0]) then 0 else 1 + CountAtMost(keys[1..], key)
  }

  /** How many keys at the front are smaller than `key`: where it goes in a leaf. */
  function CountBelow(keys: seq<Bytes>, key: Bytes): (p: nat)
    ensures p <= |keys|
    ensures forall i :: 0 <= i < p ==> Less(keys[i], key)
    ensures p < |keys| ==> AtMost(key, keys[p])
  {
    if keys == [] || !Less(keys[0], key) then 0 else 1 + CountBelow(keys[1..], key)
  }

  /** The position of `key` in sorted `keys`. */
  function Search(keys: seq<Bytes>, key: Bytes): (r: Option<nat>)
    ensures r.Some? ==> r.value < |keys| && keys[r.value] == key
    ensures r.None? && OrderedKeys(keys) ==> key !in keys
  {
    var p := CountBelow(keys, key);
    if p < |keys| && keys[p] == key then Some(p)
    else
      assert OrderedKeys(keys) ==> key !in keys by {
        LessIsStrictTotalOrder();
        forall i | OrderedKeys(keys) && 0 <= i < |keys| ensures keys[i] != key {
          assert i > p ==> Less(keys[p], keys[i]);
        }
      }
      None
  }

  /** The child to follow covers the key. */
  lemma ChildCovers(keys: seq<Bytes>, key: Bytes, low: Option<Bytes>, high: Option<Bytes>)
    requires InRange(key, low, high)
    ensures InRange(key, LowOf(keys, low, CountAtMost(keys, key)), HighOf(keys, high, CountAtMost(keys, key)))
  {
  }

  /** How the parallel arrays of a leaf are cut around `key`. */
  lemma LeafCut(keys: seq<Bytes>, values: seq<Bytes>, key: Bytes)
    requires OrderedKeys(keys) && |keys| == |values|
    ensures var p := CountBelow(keys, key);
            var q := if Search(keys, key).Some? then p + 1 else p;
            && q <= |keys|
            && AllBelow(Zip(keys, values)[..p], key)
            && AllAbove(Zip(keys, values)[q..], key)
            && (Search(keys, key).Some? ==> Search(keys, key) == Some(p) && keys[p] == key)
  {
    LessIsStrictTotalOrder();
    var p := CountBelow(keys, key);
    var q := if Search(keys, key).Some? then p + 1 else p;
    forall i | q <= i < |keys| ensures Less(key, keys[i]) {
      assert p < i ==> Less(keys[p], keys[i]);
    }
  }

  lemma LeafOverwrite(keys: seq<Bytes>, values: seq<Bytes>, key: Bytes, value: Bytes)
    requires OrderedKeys(keys) && |keys| == |values| && Search(keys, key).Some?
    ensures Zip(keys, values[Search(keys, key).value := value]) == Put(Zip(keys, values), key, value)
  {
    hide Put, Remove, Lookup, Search, CountBelow, AllBelow, AllAbove, OrderedKeys;
    var p := CountBelow(keys, key);
    LeafCut(keys, values, key);
    OperationsAtCut(Zip(keys, values), p, p + 1, key, value);
  }

  lemma LeafInsertion(keys: seq<Bytes>, values: seq<Bytes>, key: Bytes, value: Bytes)
    requires OrderedKeys(keys) && |keys| == |values| && Search(keys, key).None?
    ensures var p := CountBelow(keys, key);
            Zip(InsertAt(keys, p, key), InsertAt(values, p, value)) == Put(Zip(keys, values), key, value)
  {
    hide Put, Remove, Lookup, Search, CountBelow, AllBelow, AllAbove, OrderedKeys;
    var p := CountBelow(keys, key);
    var z := Zip(keys, values);
    LeafCut(keys, values, key);
    OperationsAtCut(z, p, p, key, value);
    assert Zip(InsertAt(keys, p, key), InsertAt(values, p, value)) == z[..p] + [Entry(key, value)] + z[p..];
  }

  lemma LeafInsertionOrdered(keys: seq<Bytes>, key: Bytes)
    requires OrderedKeys(keys) && Search(keys, key).None?
    ensures OrderedKeys(InsertAt(keys, CountBelow(keys, key), key))
  {
    LessIsStrictTotalOrder();
    var p := CountBelow(keys, key);
    forall i | p <= i < |keys| ensures Less(key, keys[i]) {
      assert p < i ==> Less(keys[p], keys[i]);
    }
  }

  lemma LeafRemoval(keys: seq<Bytes>, values: seq<Bytes>, key: Bytes)
    requires OrderedKeys(keys) && |keys| == |values|
    ensures var z := Zip(keys, values);
            match Search(keys, key)
            case Some(p) => Remove(z, key) == Zip(RemoveAt(keys, p), RemoveAt(values, p)) && Lookup(z, key) == Some(values[p])
            case None => Remove(z, key) == z && Lookup(z, key) == None
  {
    hide Put, Remove, Lookup, Search, CountBelow, AllBelow, AllAbove, OrderedKeys;
    var p := CountBelow(keys, key);
    var z := Zip(keys, values);
    LeafCut(keys, values, key);
    match Search(keys, key) {
      case Some(i) =>
        OperationsAtCut(z, p, p + 1, key, []);
        assert z[..p] + z[p + 1..] == Zip(RemoveAt(keys, p), RemoveAt(values, p));
      case None =>
        OperationsAtCut(z, p, p, key, []);
        assert z[..p] + z[p..] == z;
    }
  }

  /** Writing the keys and values of one leaf, in terms of parts. */
  lemma TipChanged(design: Design, nodes: seq<Node>, nodes': seq<Node>, t: Tree, t': Tree, low: Option<Bytes>, high: Option<Bytes>,
                   before: Option<nat>, after: Option<nat>, key: Bytes, value: Bytes)
    requires t.Tip? && Part(design, nodes, [t], [], 0, low, high, before, after)
    requires t'.Tip? && t'.id == t.id && Ordered(design, t', 0, low, high)
    requires t.id < |nodes| && nodes[t.id].Leaf?
    requires nodes' == nodes[t.id := nodes[t.id].(keys := t'.keys, values := t'.values)]
    requires Items(t') == Put(Items(t), key, value)
    ensures Inserted(design, nodes, nodes', t, [t'], [], 0, low, high, before, after, key, value)
  {
    Single(nodes, t);
    Single(nodes', t');
    assert LinkedAt(design, nodes, [t.id], before, after, 0);
    assert LinkedAt(design, nodes', [t.id], before, after, 0);
  }

  lemma TipInserted(design: Design, nodes: seq<Node>, nodes': seq<Node>, t: Tree, low: Option<Bytes>, high: Option<Bytes>,
                    before: Option<nat>, after: Option<nat>, key: Bytes, value: Bytes) returns (t': Tree)
    requires t.Tip? && Part(design, nodes, [t], [], 0, low, high, before, after)
    requires InRange(key, low, high) && Search(t.keys, key).None? && |t.keys| < design.order - 1 && |t.keys| == |t.values|
    requires t.id < |nodes| && nodes[t.id].Leaf?
    requires var p := CountBelow(t.keys, key);
             nodes' == nodes[t.id := nodes[t.id].(keys := InsertAt(t.keys, p, key), values := InsertAt(t.values, p, value))]
    ensures t'.Tip? && t'.id == t.id
    ensures Inserted(design, nodes, nodes', t, [t'], [], 0, low, high, before, after, key, value)
  {
    var p := CountBelow(t.keys, key);
    t' := Tip(t.id, InsertAt(t.keys, p, key), InsertAt(t.values, p, value));
    assert Ordered(design, [t][0], 0, LowOf([], low, 0), HighOf([], high, 0));
    LeafInsertion(t.keys, t.values, key, value);
    LeafInsertionOrdered(t.keys, key);
    TipChanged(design, nodes, nodes', t, t', low, high, before, after, key, value);
  }

  lemma TipOverwritten(design: Design, nodes: seq<Node>, nodes': seq<Node>, t: Tree, low: Option<Bytes>, high: Option<Bytes>,
                       before: Option<nat>, after: Option<nat>, key: Bytes, value: Bytes) returns (t': Tree)
    requires t.Tip? && Part(design, nodes, [t], [], 0, low, high, before, after)
    requires |t.keys| == |t.values| && Search(t.keys, key).Some?
    requires t.id < |nodes| && nodes[t.id].Leaf?
    requires nodes' == nodes[t.id := nodes[t.id].(values := t.values[Search(t.keys, key).value := value])]
    ensures t'.Tip? && t'.id == t.id
    ensures Inserted(design, nodes, nodes', t, [t'], [], 0, low, high, before, after, key, value)
  {
    t' := t.(values := t.values[Search(t.keys, key).value := value]);
    assert Ordered(design, [t][0], 0, LowOf([], low, 0), HighOf([], high, 0));
    LeafOverwrite(t.keys, t.values, key, value);
    Single(nodes, t);
    TipChanged(design, nodes, nodes', t, t', low, high, before, after, key, value);
  }

  // ---- Splitting a leaf ----

  /** The arena after splitting the leaf at `idx`: the right half goes to a new slot,
      and the leaf that followed points back at it. */
  function LeafSplit(design: Design, nodes: seq<Node>, idx: nat): seq<Node>
    requires idx < |nodes| && nodes[idx].Leaf?
    requires design.mid <= |nodes[idx].keys| == |nodes[idx].values|
    requires nodes[idx].next.Some? ==> nodes[idx].next.value < |nodes| && nodes[nodes[idx].next.value].Leaf?
  {
    var mid := design.mid;
    var n := nodes[idx];
    var right := Leaf(n.keys[mid..], n.values[mid..], Some(idx), n.next);
    var ns := nodes[idx := Leaf(n.keys[..mid], n.values[..mid], n.prev, Some(|nodes|))] + [right];
    if n.next.Some? then ns[n.next.value := ns[n.next.value].(prev := Some(|nodes|))] else ns
  }

  /** What a part that is a single leaf says about the leaf's node. */
  lemma TipFacts(design: Design, nodes: seq<Node>, t: Tree, low: Option<Bytes>, high: Option<Bytes>, before: Option<nat>, after: Option<nat>)
    requires t.Tip? && Part(design, nodes, [t], [], 0, low, high, before, after)
    ensures t.id < |nodes| && nodes[t.id] == Leaf(t.keys, t.values, Back(design, before, t.id), after)
    ensures Ordered(design, t, 0, low, high)
    ensures FollowedBy(design, nodes, {t.id}, t.id, after)
  {
    Single(nodes, t);
    assert Ordered(design, [t][0], 0, LowOf([], low, 0), HighOf([], high, 0));
    assert LinkedAt(design, nodes, [t.id], before, after, 0);
  }

  lemma TipSplit(design: Design, nodes: seq<Node>, t: Tree, low: Option<Bytes>, high: Option<Bytes>, before: Option<nat>, after: Option<nat>)
    requires t.Tip? && Part(design, nodes, [t], [], 0, low, high, before, after)
    requires |t.keys| == |t.values| == design.order - 1 && |nodes| != 2
    requires t.id < |nodes| && nodes[t.id] == Leaf(t.keys, t.values, Back(design, before, t.id), after)
    requires after.Some? ==> after.value < |nodes| && nodes[after.value].Leaf?
    ensures var mid := design.mid;
            var nodes' := LeafSplit(design, nodes, t.id);
            var left, right := Tip(t.id, t.keys[..mid], t.values[..mid]), Tip(|nodes|, t.keys[mid..], t.values[mid..]);
            && Part(design, nodes', [left, right], [t.keys[mid]], 0, low, high, before, after)
            && Framed(nodes, nodes', Ids(t), after)
            && Grown(nodes, nodes', Ids(t), IdsOf([left, right]))
            && ItemsOf([left, right]) == Items(t)
            && LeafIdsOf([left, right]) == [t.id, |nodes|]
  {
    hide LeafSplit, Zip, Put, Linked, LinkedAt, FollowedBy, Framed, Less, Ordered, OrderedForest, OrderedKeys, InRange;
    var mid := design.mid;
    TipFacts(design, nodes, t, low, high, before, after);
    TipSplitOrdered(design, t, |nodes|, low, high);
    TipSplitNodes(design, nodes, t, before, after);
    var nodes' := LeafSplit(design, nodes, t.id);
    var left, right := Tip(t.id, t.keys[..mid], t.values[..mid]), Tip(|nodes|, t.keys[mid..], t.values[mid..]);
    Pair(nodes', left, right);
    assert IdsOf([left, right]) == {t.id, |nodes|};
    assert LeafIdsOf([left, right]) == [t.id, |nodes|];
  }

  lemma TipSplitNodes(design: Design, nodes: seq<Node>, t: Tree, before: Option<nat>, after: Option<nat>)
    requires t.Tip? && |t.keys| == |t.values| == design.order - 1 && |nodes| != 2
    requires t.id < |nodes| && nodes[t.id] == Leaf(t.keys, t.values, Back(design, before, t.id), after)
    requires FollowedBy(design, nodes, {t.id}, t.id, after)
    ensures var mid := design.mid;
            var nodes' := LeafSplit(design, nodes, t.id);
            var r := |nodes|;
            && |nodes'| == r + 1
            && nodes'[t.id] == Leaf(t.keys[..mid], t.values[..mid], Back(design, before, t.id), Some(r))
            && nodes'[r] == Leaf(t.keys[mid..], t.values[mid..], Some(t.id), after)
            && Framed(nodes, nodes', {t.id}, after)
            && Linked(design, nodes', [t.id, r], before, after)
            && FollowedBy(design, nodes', {t.id, r}, r, after)
  {
    var nodes' := LeafSplit(design, nodes, t.id);
    var ids := [t.id, |nodes|];
    assert LinkedAt(design, nodes', ids, before, after, 0);
    assert LinkedAt(design, nodes', ids, before, after, 1);
  }

  lemma TipSplitOrdered(design: Design, t: Tree, r: nat, low: Option<Bytes>, high: Option<Bytes>)
    requires t.Tip? && Ordered(design, t, 0, low, high) && |t.keys| == design.order - 1
    ensures var mid := design.mid;
            var left, right := Tip(t.id, t.keys[..mid], t.values[..mid]), Tip(r, t.keys[mid..], t.values[mid..]);
            && OrderedForest(design, [left, right], [t.keys[mid]], 0, low, high)
            && Items(left) + Items(right) == Items(t)
  {
    var mid := design.mid;
    var left, right := Tip(t.id, t.keys[..mid], t.values[..mid]), Tip(r, t.keys[mid..], t.values[mid..]);
    TipHalvesOrdered(design, t, r, low, high);
    MidInside(t.keys, mid, low, high);
    ZipSplits(t.keys, t.values, mid);
  }

  lemma ZipSplits(keys: seq<Bytes>, values: seq<Bytes>, m: nat)
    requires m <= |keys| == |values|
    ensures Zip(keys[..m], values[..m]) + Zip(keys[m..], values[m..]) == Zip(keys, values)
  {
    assert forall i :: 0 <= i < m ==> Zip(keys[..m], values[..m])[i] == Zip(keys, values)[i];
    assert forall i :: m <= i < |keys| ==> Zip(keys[m..], values[m..])[i - m] == Zip(keys, values)[i];
  }

  lemma TipHalvesOrdered(design: Design, t: Tree, r: nat, low: Option<Bytes>, high: Option<Bytes>)
    requires t.Tip? && Ordered(design, t, 0, low, high) && |t.keys| == design.order - 1
    ensures var mid := design.mid;
            && Ordered(design, Tip(t.id, t.keys[..mid], t.values[..mid]), 0, low, Some(t.keys[mid]))
            && Ordered(design, Tip(r, t.keys[mid..], t.values[mid..]), 0, Some(t.keys[mid]), high)
  {
    hide Less;
    KeysInOrder(t.keys);
  }

  lemma MidInside(keys: seq<Bytes>, m: nat, low: Option<Bytes>, high: Option<Bytes>)
    requires OrderedKeys(keys) && 0 < m < |keys| && InRange(keys[0], low, high) && InRange(keys[m], low, high)
    ensures StrictlyAbove(keys[m], low) && StrictlyBelow(keys[m], high)
  {
    hide Less;
    LessIsStrictTotalOrder();
    assert Less(keys[0], keys[m]);
  }

  lemma KeysInOrder(keys: seq<Bytes>)
    requires OrderedKeys(keys)
    ensures forall i, j :: 0 <= i < j < |keys| ==> Less(keys[i], keys[j]) && !Less(keys[j], keys[i])
    ensures forall i :: 0 <= i < |keys| ==> !Less(keys[i], keys[i])
  {
    LessIsStrictTotalOrder();
  }

  // ---- Inserting into a leaf that was just split ----

  function WithKey(n: Node, key: Bytes, value: Bytes): Node
    requires n.Leaf? && |n.keys| == |n.values|
  {
    var pos := CountBelow(n.keys, key);
    n.(keys := InsertAt(n.keys, pos, key), values := InsertAt(n.values, pos, value))
  }

  ghost function TipHalves(design: Design, t: Tree, rightIdx: nat): seq<Tree>
    requires t.Tip? && |t.keys| == |t.values| == design.order - 1
  {
    var mid := design.mid;
    [Tip(t.id, t.keys[..mid], t.values[..mid]), Tip(rightIdx, t.keys[mid..], t.values[mid..])]
  }

  /** The half that a key goes to is a leaf that covers it and has room. */
  lemma {:induction false} HalfChosen(design: Design, nodes: seq<Node>, t: Tree, rightIdx: nat, low: Option<Bytes>, high: Option<Bytes>,
                   before: Option<nat>, after: Option<nat>, key: Bytes, p: nat)
    requires t.Tip? && |t.keys| == |t.values| == design.order - 1
    requires var halves, sep := TipHalves(design, t, rightIdx), t.keys[design.mid];
             && Part(design, nodes, halves, [sep], 0, low, high, before, after)
             && p == if AtMost(sep, key) then 1 else 0
    requires InRange(key, low, high) && key !in t.keys
    ensures var u, sep := TipHalves(design, t, rightIdx)[p], t.keys[design.mid];
            && Part(design, nodes, [u], [], 0, LowOf([sep], low, p), HighOf([sep], high, p),
                    BeforeOf(if p == 0 then [] else [t.id], before), AfterOf(if p == 0 then [rightIdx] else [], after))
            && InRange(key, LowOf([sep], low, p), HighOf([sep], high, p))
            && u.id < |nodes| && nodes[u.id].Leaf? && nodes[u.id].keys == u.keys && nodes[u.id].values == u.values
            && OrderedKeys(u.keys) && Search(u.keys, key).None? && |u.keys| == |u.values| < design.order - 1
  {
    var halves, sep := TipHalves(design, t, rightIdx), t.keys[design.mid];
    var u := halves[p];
    HalvesAround(design, t, rightIdx, p);
    Descend(design, nodes, halves, [sep], 0, low, high, before, after, p);
    TipFacts(design, nodes, u, LowOf([sep], low, p), HighOf([sep], high, p),
             BeforeOf(LeafIdsOf(halves[..p]), before), AfterOf(LeafIdsOf(halves[p + 1..]), after));
    assert forall k :: k in u.keys ==> k in t.keys;
  }

  lemma {:induction false} HalvesAround(design: Design, t: Tree, rightIdx: nat, p: nat)
    requires t.Tip? && |t.keys| == |t.values| == design.order - 1 && p < 2
    ensures var halves := TipHalves(design, t, rightIdx);
            && LeafIdsOf(halves[..p]) == (if p == 0 then [] else [t.id])
            && LeafIdsOf(halves[p + 1..]) == (if p == 0 then [rightIdx] else [])
            && LeafIdsOf(halves) == [t.id, rightIdx]
  {
    var halves := TipHalves(design, t, rightIdx);
    Pair([], halves[0], halves[1]);
    Single([], halves[0]);
    Single([], halves[1]);
    assert halves[..1] == [halves[0]] && halves[1..] == [halves[1]] && halves[2..] == [] && halves[..0] == [];
  }

  lemma {:induction false} HalfInserted(design: Design, nodes: seq<Node>, nodes': seq<Node>, t: Tree, rightIdx: nat, low: Option<Bytes>, high: Option<Bytes>,
                     before: Option<nat>, after: Option<nat>, key: Bytes, value: Bytes, p: nat) returns (ts: seq<Tree>)
    requires t.Tip? && |t.keys| == |t.values| == design.order - 1
    requires var halves, sep := TipHalves(design, t, rightIdx), t.keys[design.mid];
             && Part(design, nodes, halves, [sep], 0, low, high, before, after)
             && p == (if AtMost(sep, key) then 1 else 0)
             && halves[p].id < |nodes| && nodes[halves[p].id].Leaf?
             && nodes[halves[p].id].keys == halves[p].keys && nodes[halves[p].id].values == halves[p].values
             && nodes' == nodes[halves[p].id := WithKey(nodes[halves[p].id], key, value)]
    requires InRange(key, low, high) && key !in t.keys
    ensures var halves, sep := TipHalves(design, t, rightIdx), t.keys[design.mid];
            && Part(design, nodes', ts, [sep], 0, low, high, before, after)
            && Framed(nodes, nodes', IdsOf(halves), after)
            && Grown(nodes, nodes', IdsOf(halves), IdsOf(ts))
            && ItemsOf(ts) == Put(ItemsOf(halves), key, value)
            && LeafIdsOf(ts) == [t.id, rightIdx]
    ensures |ts| == 2 && ts[0].Tip? && ts[0].id == t.id && ts[1].id == rightIdx
  {
    hide Part, Put, InRange, AtMost;
    var halves, sep := TipHalves(design, t, rightIdx), t.keys[design.mid];
    var lo, hi := LowOf([sep], low, p), HighOf([sep], high, p);
    var b, a := BeforeOf(if p == 0 then [] else [t.id], before), AfterOf(if p == 0 then [rightIdx] else [], after);
    HalfChosen(design, nodes, t, rightIdx, low, high, before, after, key, p);
    var u' := TipInserted(design, nodes, nodes', halves[p], lo, hi, b, a, key, value);
    HalvesAround(design, t, rightIdx, p);
    assert Inserted(design, nodes, nodes', halves[p], [u'], [], 0, lo, hi,
                    BeforeOf(LeafIdsOf(halves[..p]), before), AfterOf(LeafIdsOf(halves[p + 1..]), after), key, value);
    Ascend(design, nodes, nodes', halves, [sep], 0, low, high, before, after, p, [u'], [], key, value);
    ts := HalfReplaced(design, t, rightIdx, p, u');
    assert SplicedKeys([sep], p, []) == [sep];
  }

  lemma {:induction false} HalfReplaced(design: Design, t: Tree, rightIdx: nat, p: nat, u: Tree) returns (ts: seq<Tree>)
    requires t.Tip? && |t.keys| == |t.values| == design.order - 1 && p < 2
    requires u.Tip? && u.id == TipHalves(design, t, rightIdx)[p].id
    ensures ts == Spliced(TipHalves(design, t, rightIdx), p, [u])
    ensures |ts| == 2 && ts[0].Tip? && ts[0].id == t.id && ts[1].id == rightIdx
    ensures LeafIdsOf(ts) == [t.id, rightIdx]
  {
    var halves := TipHalves(design, t, rightIdx);
    ts := Spliced(halves, p, [u]);
    assert ts == if p == 0 then [u, halves[1]] else [halves[0], u];
    Pair([], ts[0], ts[1]);
  }

  lemma {:induction false} InsertedAfterSplit(design: Design, nodes: seq<Node>, nodes1: seq<Node>, nodes2: seq<Node>, t: Tree, halves: seq<Tree>, ts: seq<Tree>, seps: seq<Bytes>,
                           low: Option<Bytes>, high: Option<Bytes>, before: Option<nat>, after: Option<nat>, key: Bytes, value: Bytes)
    requires t.Tip? && |seps| == 1 && |ts| == 2 && ts[0].id == t.id && after != Some(|nodes|)
    requires Framed(nodes, nodes1, Ids(t), after) && Grown(nodes, nodes1, Ids(t), IdsOf(halves)) && ItemsOf(halves) == Items(t)
    requires Part(design, nodes2, ts, seps, 0, low, high, before, after)
    requires Framed(nodes1, nodes2, IdsOf(halves), after) && Grown(nodes1, nodes2, IdsOf(halves), IdsOf(ts))
    requires ItemsOf(ts) == Put(ItemsOf(halves), key, value)
    requires LeafIdsOf(ts) == [t.id, |nodes|]
    ensures Inserted(design, nodes, nodes2, t, ts, seps, 0, low, high, before, after, key, value)
  {
  }
}
