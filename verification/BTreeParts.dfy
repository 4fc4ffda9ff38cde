/** How a part of the B+tree changes: going down into a child, coming back up with
    the child's replacement, and changing a leaf. */
module BTreeParts {
  import opened ByteStrings
  import opened Options
  import opened SortedEntries
  import opened BTreeShape

  // ---- Going down and coming back ----

  /** A branch is its forest plus one node of the arena. */
  lemma Unwrap(design: Design, nodes: seq<Node>, t: Tree, h: nat, low: Option<Bytes>, high: Option<Bytes>, before: Option<nat>, after: Option<nat>)
    requires t.Branch? && Part(design, nodes, [t], [], h, low, high, before, after)
    ensures h > 0 && Part(design, nodes, t.kids, t.keys, h - 1, low, high, before, after)
    ensures t.id < |nodes| && nodes[t.id] == Internal(t.keys, Roots(t.kids))
    ensures t.id !in IdsOf(t.kids) && after != Some(t.id)
    ensures 0 < |t.keys| < design.order && |t.kids| == |t.keys| + 1
  {
    Single(nodes, t);
    assert Ordered(design, [t][0], h, LowOf([], low, 0), HighOf([], high, 0));
  }

  lemma Wrap(design: Design, nodes: seq<Node>, t: Tree, h: nat, low: Option<Bytes>, high: Option<Bytes>, before: Option<nat>, after: Option<nat>)
    requires t.Branch? && Part(design, nodes, t.kids, t.keys, h, low, high, before, after)
    requires 0 < |t.keys| < design.order
    requires t.id < |nodes| && nodes[t.id] == Internal(t.keys, Roots(t.kids))
    requires t.id !in IdsOf(t.kids)
    ensures Part(design, nodes, [t], [], h + 1, low, high, before, after)
  {
    Single(nodes, t);
  }

  /** Two branches made of the two halves of a forest. */
  lemma WrapTwo(design: Design, nodes: seq<Node>, ts: seq<Tree>, seps: seq<Bytes>, h: nat, low: Option<Bytes>, high: Option<Bytes>,
                before: Option<nat>, after: Option<nat>, m: nat, left: Tree, right: Tree)
    requires Part(design, nodes, ts, seps, h, low, high, before, after)
    requires 0 < m < |seps| - 1 && |seps| == design.order
    requires left.Branch? && left.keys == seps[..m] && left.kids == ts[..m + 1]
    requires right.Branch? && right.keys == seps[m + 1..] && right.kids == ts[m + 1..]
    requires left.id < |nodes| && nodes[left.id] == Internal(left.keys, Roots(left.kids))
    requires right.id < |nodes| && nodes[right.id] == Internal(right.keys, Roots(right.kids))
    requires left.id !in IdsOf(ts) && right.id !in IdsOf(ts) && left.id != right.id
    ensures Part(design, nodes, [left, right], [seps[m]], h + 1, low, high, before, after)
    ensures IdsOf([left, right]) == IdsOf(ts) + {left.id, right.id}
    ensures LeafIdsOf([left, right]) == LeafIdsOf(ts)
    ensures ItemsOf([left, right]) == ItemsOf(ts)
  {
    HalvesOrdered(design, ts, seps, h, low, high, m, left, right);
    HalvesHeld(nodes, ts, m, left, right);
  }

  lemma HalvesOrdered(design: Design, ts: seq<Tree>, seps: seq<Bytes>, h: nat, low: Option<Bytes>, high: Option<Bytes>, m: nat, left: Tree, right: Tree)
    requires OrderedForest(design, ts, seps, h, low, high)
    requires 0 < m < |seps| - 1 && |seps| == design.order
    requires left.Branch? && left.keys == seps[..m] && left.kids == ts[..m + 1]
    requires right.Branch? && right.keys == seps[m + 1..] && right.kids == ts[m + 1..]
    ensures OrderedForest(design, [left, right], [seps[m]], h + 1, low, high)
  {
    CutForest(design, ts, seps, h, low, high, m);
    assert Ordered(design, left, h + 1, low, Some(seps[m]));
    assert Ordered(design, right, h + 1, Some(seps[m]), high);
  }

  lemma HalvesHeld(nodes: seq<Node>, ts: seq<Tree>, m: nat, left: Tree, right: Tree)
    requires HeldForest(nodes, ts) && DistinctForest(ts) && m < |ts|
    requires left.Branch? && left.kids == ts[..m + 1]
    requires right.Branch? && right.kids == ts[m + 1..]
    requires left.id < |nodes| && nodes[left.id] == Internal(left.keys, Roots(left.kids))
    requires right.id < |nodes| && nodes[right.id] == Internal(right.keys, Roots(right.kids))
    requires left.id !in IdsOf(ts) && right.id !in IdsOf(ts) && left.id != right.id
    ensures HeldForest(nodes, [left, right]) && DistinctForest([left, right])
    ensures IdsOf([left, right]) == IdsOf(ts) + {left.id, right.id}
    ensures LeafIdsOf([left, right]) == LeafIdsOf(ts)
    ensures ItemsOf([left, right]) == ItemsOf(ts)
  {
    assert ts == left.kids + right.kids;
    ForestConcat(nodes, left.kids, right.kids);
    Pair(nodes, left, right);
  }

  lemma Descend(design: Design, nodes: seq<Node>, ts: seq<Tree>, seps: seq<Bytes>, h: nat, low: Option<Bytes>, high: Option<Bytes>,
                before: Option<nat>, after: Option<nat>, p: nat)
    requires Part(design, nodes, ts, seps, h, low, high, before, after) && p <= |seps|
    ensures Part(design, nodes, [ts[p]], [], h, LowOf(seps, low, p), HighOf(seps, high, p),
                 BeforeOf(LeafIdsOf(ts[..p]), before), AfterOf(LeafIdsOf(ts[p + 1..]), after))
    ensures Ids(ts[p]) <= IdsOf(ts)
  {
    var a, t, c := ts[..p], ts[p], ts[p + 1..];
    assert ts == a + [t] + c;
    ForestAround(nodes, a, [t], c);
    Single(nodes, t);
    LeavesExist(design, t, h, LowOf(seps, low, p), HighOf(seps, high, p));
    LinkedMiddle(design, nodes, LeafIdsOf(a), LeafIds(t), LeafIdsOf(c), before, after);
    FollowedInside(design, nodes, ts, seps, h, low, high, before, after, p);
  }

  lemma FollowedInside(design: Design, nodes: seq<Node>, ts: seq<Tree>, seps: seq<Bytes>, h: nat, low: Option<Bytes>, high: Option<Bytes>,
                       before: Option<nat>, after: Option<nat>, p: nat)
    requires Part(design, nodes, ts, seps, h, low, high, before, after) && p <= |seps|
    requires LeafIds(ts[p]) != []
    ensures FollowedBy(design, nodes, Ids(ts[p]), Last(LeafIds(ts[p])), AfterOf(LeafIdsOf(ts[p + 1..]), after))
  {
    var a, t, c := ts[..p], ts[p], ts[p + 1..];
    assert ts == a + [t] + c;
    ForestAround(nodes, a, [t], c);
    Single(nodes, t);
    var la, lb, lc := LeafIdsOf(a), LeafIds(t), LeafIdsOf(c);
    assert LeafIdsOf(ts) == la + lb + lc;
    if lc == [] {
      assert Last(LeafIdsOf(ts)) == Last(lb);
    } else {
      var k := |la| + |lb|;
      assert LinkedAt(design, nodes, LeafIdsOf(ts), before, after, k);
      assert LeafIdsOf(ts)[k] == lc[0] && LeafIdsOf(ts)[k - 1] == Last(lb);
      LeafIdsAreIds(c);
      assert lc[0] in lc;
    }
  }

  lemma {:induction false} LeafIdsAreIds(ts: seq<Tree>)
    ensures forall i :: i in LeafIdsOf(ts) ==> i in IdsOf(ts)
    decreases ts
  {
    if ts != [] {
      if ts[0].Branch? { LeafIdsAreIds(ts[0].kids); }
      LeafIdsAreIds(ts[1..]);
      assert forall i :: i in LeafIds(ts[0]) ==> i in Ids(ts[0]);
    }
  }

  /** The result of inserting below `t`: one tree, or two with a separator between. */
  ghost predicate Inserted(design: Design, nodes: seq<Node>, nodes': seq<Node>, t: Tree, ts: seq<Tree>, seps: seq<Bytes>, h: nat,
                           low: Option<Bytes>, high: Option<Bytes>, before: Option<nat>, after: Option<nat>,
                           key: Bytes, value: Bytes)
  {
    && Part(design, nodes', ts, seps, h, low, high, before, after)
    && |seps| <= 1
    && ts[0].id == t.id
    && LeafIds(t) != [] && LeafIdsOf(ts)[0] == LeafIds(t)[0]
    && Framed(nodes, nodes', Ids(t), after)
    && Grown(nodes, nodes', Ids(t), IdsOf(ts))
    && ItemsOf(ts) == Put(Items(t), key, value)
  }

  /** `ts` with the tree at `p` replaced by `us`. */
  ghost function Spliced(ts: seq<Tree>, p: nat, us: seq<Tree>): seq<Tree>
    requires p < |ts|
  {
    ts[..p] + us + ts[p + 1..]
  }

  function SplicedKeys(seps: seq<Bytes>, p: nat, useps: seq<Bytes>): seq<Bytes>
    requires p <= |seps|
  {
    seps[..p] + useps + seps[p..]
  }

  lemma Ascend(design: Design, nodes: seq<Node>, nodes': seq<Node>, ts: seq<Tree>, seps: seq<Bytes>, h: nat, low: Option<Bytes>, high: Option<Bytes>,
               before: Option<nat>, after: Option<nat>, p: nat, us: seq<Tree>, useps: seq<Bytes>, key: Bytes, value: Bytes)
    requires Part(design, nodes, ts, seps, h, low, high, before, after) && p <= |seps|
    requires InRange(key, LowOf(seps, low, p), HighOf(seps, high, p))
    requires Inserted(design, nodes, nodes', ts[p], us, useps, h, LowOf(seps, low, p), HighOf(seps, high, p),
                      BeforeOf(LeafIdsOf(ts[..p]), before), AfterOf(LeafIdsOf(ts[p + 1..]), after), key, value)
    ensures Part(design, nodes', Spliced(ts, p, us), SplicedKeys(seps, p, useps), h, low, high, before, after)
    ensures Framed(nodes, nodes', IdsOf(ts), after)
    ensures Grown(nodes, nodes', IdsOf(ts), IdsOf(Spliced(ts, p, us)))
    ensures ItemsOf(Spliced(ts, p, us)) == Put(ItemsOf(ts), key, value)
    ensures LeafIdsOf(Spliced(ts, p, us))[0] == LeafIdsOf(ts)[0]
  {
    var ts' := Spliced(ts, p, us);
    SpliceForest(design, ts, seps, h, low, high, p, us, useps);
    AscendNodes(nodes, nodes', ts, p, us, after);
    AscendLeaves(design, nodes, nodes', ts, seps, h, low, high, before, after, p, us, useps, key, value);
    AscendItems(design, ts, seps, h, low, high, p, us, key, value);
  }

  lemma AscendItems(design: Design, ts: seq<Tree>, seps: seq<Bytes>, h: nat, low: Option<Bytes>, high: Option<Bytes>,
                    p: nat, us: seq<Tree>, key: Bytes, value: Bytes)
    requires OrderedForest(design, ts, seps, h, low, high) && p <= |seps|
    requires InRange(key, LowOf(seps, low, p), HighOf(seps, high, p))
    requires ItemsOf(us) == Put(Items(ts[p]), key, value)
    ensures ItemsOf(Spliced(ts, p, us)) == Put(ItemsOf(ts), key, value)
  {
    var a, t, c := ts[..p], ts[p], ts[p + 1..];
    assert ts == a + [t] + c;
    ForestAround([], a, [t], c);
    Single([], t);
    ForestAround([], a, us, c);
    ItemsAround(design, ts, seps, h, low, high, p, key);
    OnlyTheMiddleMatters(ItemsOf(a), Items(t), ItemsOf(c), key, value);
  }

  lemma AscendNodes(nodes: seq<Node>, nodes': seq<Node>, ts: seq<Tree>, p: nat, us: seq<Tree>, after: Option<nat>)
    requires p < |ts| && HeldForest(nodes, ts) && DistinctForest(ts)
    requires HeldForest(nodes', us) && DistinctForest(us)
    requires Framed(nodes, nodes', Ids(ts[p]), AfterOf(LeafIdsOf(ts[p + 1..]), after))
    requires Grown(nodes, nodes', Ids(ts[p]), IdsOf(us))
    ensures HeldForest(nodes', Spliced(ts, p, us)) && DistinctForest(Spliced(ts, p, us))
    ensures Framed(nodes, nodes', IdsOf(ts), after)
    ensures Grown(nodes, nodes', IdsOf(ts), IdsOf(Spliced(ts, p, us)))
  {
    var a, t, c := ts[..p], ts[p], ts[p + 1..];
    assert ts == a + [t] + c;
    ForestAround(nodes, a, [t], c);
    Single(nodes, t);
    HeldIdsBound(nodes, a);
    HeldIdsBound(nodes, c);
    ForestHeldFrame(nodes, nodes', a);
    ForestHeldFrame(nodes, nodes', c);
    ForestAround(nodes', a, us, c);
    LeafIdsAreIds(c);
    if LeafIdsOf(c) != [] {
      assert LeafIdsOf(c)[0] in LeafIdsOf(c);
    }
  }

  lemma AscendLeaves(design: Design, nodes: seq<Node>, nodes': seq<Node>, ts: seq<Tree>, seps: seq<Bytes>, h: nat, low: Option<Bytes>, high: Option<Bytes>,
                     before: Option<nat>, after: Option<nat>, p: nat, us: seq<Tree>, useps: seq<Bytes>, key: Bytes, value: Bytes)
    requires Part(design, nodes, ts, seps, h, low, high, before, after) && p <= |seps|
    requires Inserted(design, nodes, nodes', ts[p], us, useps, h, LowOf(seps, low, p), HighOf(seps, high, p),
                      BeforeOf(LeafIdsOf(ts[..p]), before), AfterOf(LeafIdsOf(ts[p + 1..]), after), key, value)
    requires Grown(nodes, nodes', IdsOf(ts), IdsOf(Spliced(ts, p, us)))
    ensures LeafIdsOf(Spliced(ts, p, us)) != []
    ensures LeafIdsOf(Spliced(ts, p, us))[0] == LeafIdsOf(ts)[0]
    ensures Linked(design, nodes', LeafIdsOf(Spliced(ts, p, us)), before, after)
    ensures FollowedBy(design, nodes', IdsOf(Spliced(ts, p, us)), Last(LeafIdsOf(Spliced(ts, p, us))), after)
  {
    hide Items, ItemsOf, Ordered, Held, HeldForest, Distinct, DistinctForest, Ids, IdsOf, LeafIds, LeafIdsOf, Put, Linked;
    var a, t, c := ts[..p], ts[p], ts[p + 1..];
    var la, lb, lb', lc := LeafIdsOf(a), LeafIds(t), LeafIdsOf(us), LeafIdsOf(c);
    LeavesAround(ts, p, us);
    LeavesUnchanged(nodes, nodes', ts, p, after);
    LinkedSplice(design, nodes, nodes', la, lb, lb', lc, before, after);
    if after.Some? {
      if lc != [] {
        assert Last(la + lb + lc) == Last(lc) == Last(la + lb' + lc);
        LeafIdsAreIds(c);
        assert lc[0] in lc && lc[0] in IdsOf(ts);
        assert nodes'[after.value] == nodes[after.value];
      } else {
        assert la + lb' + lc == la + lb';
        assert Last(la + lb' + lc) == Last(lb');
      }
    }
  }

  lemma LeavesAround(ts: seq<Tree>, p: nat, us: seq<Tree>)
    requires p < |ts|
    ensures LeafIdsOf(ts) == LeafIdsOf(ts[..p]) + LeafIds(ts[p]) + LeafIdsOf(ts[p + 1..])
    ensures LeafIdsOf(Spliced(ts, p, us)) == LeafIdsOf(ts[..p]) + LeafIdsOf(us) + LeafIdsOf(ts[p + 1..])
    ensures IdsOf(ts) == IdsOf(ts[..p]) + Ids(ts[p]) + IdsOf(ts[p + 1..])
  {
    assert ts == ts[..p] + [ts[p]] + ts[p + 1..];
    ForestAround([], ts[..p], [ts[p]], ts[p + 1..]);
    Single([], ts[p]);
    ForestAround([], ts[..p], us, ts[p + 1..]);
  }

  /** The leaves beside the changed tree keep their nodes, but for one `prev` link. */
  lemma LeavesUnchanged(nodes: seq<Node>, nodes': seq<Node>, ts: seq<Tree>, p: nat, after: Option<nat>)
    requires p < |ts| && HeldForest(nodes, ts) && DistinctForest(ts)
    requires Framed(nodes, nodes', Ids(ts[p]), AfterOf(LeafIdsOf(ts[p + 1..]), after))
    requires after.Some? ==> after.value !in IdsOf(ts)
    ensures forall i :: i in LeafIdsOf(ts[..p]) ==> i < |nodes| && i < |nodes'| && nodes'[i] == nodes[i]
    ensures var lc := LeafIdsOf(ts[p + 1..]);
            forall i :: 0 <= i < |lc| ==>
              && lc[i] < |nodes| && lc[i] < |nodes'|
              && SameButPrev(nodes[lc[i]], nodes'[lc[i]])
              && (i > 0 ==> nodes'[lc[i]] == nodes[lc[i]])
  {
    var a, t, c := ts[..p], ts[p], ts[p + 1..];
    assert ts == a + [t] + c;
    ForestAround(nodes, a, [t], c);
    Single(nodes, t);
    var la, lc := LeafIdsOf(a), LeafIdsOf(c);
    LeafIdsAreIds(a);
    LeafIdsAreIds(c);
    HeldIdsBound(nodes, a);
    HeldIdsBound(nodes, c);
    DistinctLeaves(c);
    forall i | i in la ensures i < |nodes| && i < |nodes'| && nodes'[i] == nodes[i] {
      assert i in IdsOf(a) && i !in Ids(t);
      assert lc != [] ==> lc[0] in lc;
    }
    forall i | 0 <= i < |lc|
      ensures lc[i] < |nodes| && lc[i] < |nodes'| && SameButPrev(nodes[lc[i]], nodes'[lc[i]])
      ensures i > 0 ==> nodes'[lc[i]] == nodes[lc[i]]
    {
      assert lc[i] in lc && lc[i] !in Ids(t);
    }
  }

  lemma {:induction false} DistinctLeaves(ts: seq<Tree>)
    requires DistinctForest(ts)
    ensures forall i, j :: 0 <= i < j < |LeafIdsOf(ts)| ==> LeafIdsOf(ts)[i] != LeafIdsOf(ts)[j]
    decreases ts
  {
    if ts != [] {
      if ts[0].Branch? { DistinctLeaves(ts[0].kids); }
      DistinctLeaves(ts[1..]);
      var a, b := LeafIds(ts[0]), LeafIdsOf(ts[1..]);
      Single([], ts[0]);
      LeafIdsAreIds([ts[0]]);
      LeafIdsAreIds(ts[1..]);
      forall i, j | 0 <= i < |a| && 0 <= j < |b| ensures a[i] != b[j] {
        assert a[i] in a && b[j] in b;
      }
    }
  }

  /** A write to a node outside a part leaves the part as it is. */
  lemma PartFrame(design: Design, nodes: seq<Node>, nodes': seq<Node>, ts: seq<Tree>, seps: seq<Bytes>, h: nat,
                  low: Option<Bytes>, high: Option<Bytes>, before: Option<nat>, after: Option<nat>)
    requires Part(design, nodes, ts, seps, h, low, high, before, after)
    requires |nodes| <= |nodes'|
    requires forall i :: i in IdsOf(ts) && i < |nodes| ==> nodes'[i] == nodes[i]
    requires after.Some? ==> nodes'[after.value] == nodes[after.value]
    ensures Part(design, nodes', ts, seps, h, low, high, before, after)
  {
    ForestHeldFrame(nodes, nodes', ts);
    LeafIdsAreIds(ts);
    var ids := LeafIdsOf(ts);
    forall k | 0 <= k < |ids| ensures LinkedAt(design, nodes', ids, before, after, k) {
      assert LinkedAt(design, nodes, ids, before, after, k);
      assert ids[k] in ids;
    }
  }
}
