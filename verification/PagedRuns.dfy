/** Runs of the page-backed tree, in the session that creates its file and in later ones. */
module PagedRuns {
  import opened ByteStrings
  import opened Options
  import opened SortedEntries
  import opened BTreeShape
  import opened BTreeGrowth
  import opened BTreeLeaf
  import opened BTreeQueries
  import opened BTreeFacts
  import opened PageFormat
  import opened PagedBTrees

  /** The operations that the tree on pages has, with keys and values that fit their slots. */
  predicate OnPagedTree(op: Op) {
    match op
    case InsertOp(key, value) => |key| <= KEY_MAX && |value| <= VAL_MAX
    case LenOp => false
    case IsEmptyOp => false
    case _ => true
  }

  predicate AllOnPagedTree(ops: seq<Op>) {
    forall i :: 0 <= i < |ops| ==> OnPagedTree(ops[i])
  }

  /** Whether the page numbers last for another insertion. */
  ghost predicate PagesLast(nodes: seq<Node>) {
    2 * |nodes| + 2 < NULL_PAGE
  }

  method Answered(t: PagedBTree, op: Op) returns (answer: Answer)
    requires t.Valid() && OnPagedTree(op) && PagesLast(t.nodes)
    requires op.InsertOp? ==> t.StaysWhole(op.key)
    modifies t, t.store, t.store.cache
    ensures t.Valid() && (t.Appending() <==> old(t.Appending()))
    ensures Agrees(old(t.Model()), op, answer) && t.Model() == Changed(old(t.Model()), op)
  {
    hide WellFormed, OnPages, Items, Content;
    match op {
      case InsertOp(key, value) =>
        t.Insert(key, value);
        answer := Answer.Inserted;
      case DeleteOp(key) =>
        var existed := t.Delete(key);
        answer := Deleted(existed);
      case GetOp(key) =>
        var value := t.Get(key);
        answer := Found(value);
      case RangeOp(start, end) =>
        var entries := t.Range(start, end);
        answer := Listed(entries);
    }
  }

  /** Any run on a reopened tree gives the answers of a plain map, for as long as the page
      numbers last. */
  method RunReopened(t: PagedBTree, ops: seq<Op>) returns (again: PagedBTree, answers: seq<Answer>)
    requires t.Valid() && AllOnPagedTree(ops)
    ensures fresh(again) && again.Valid() && again.Appending()
    ensures |answers| <= |ops| && (|answers| < |ops| ==> !PagesLast(again.nodes))
    ensures forall i :: 0 <= i < |answers| ==> Agrees(MapAfter(old(t.Model()), ops[..i]), ops[i], answers[i])
    ensures again.Model() == MapAfter(old(t.Model()), ops[..|answers|])
  {
    hide WellFormed, OnPages, Items, Content, Agrees, OnPagedTree;
    again := Reopen(t);
    answers := [];
    ghost var m := t.Model();
    for i := 0 to |ops|
      invariant fresh(again) && fresh(again.store) && fresh(again.store.cache)
      invariant again.Valid() && again.Appending() && |answers| == i
      invariant again.Model() == MapAfter(m, ops[..i])
      invariant forall j :: 0 <= j < i ==> Agrees(MapAfter(m, ops[..j]), ops[j], answers[j])
    {
      if 2 * again.nextPageId + 2 >= NULL_PAGE { return; }
      assert ops[..i + 1][..i] == ops[..i];
      var answer := Answered(again, ops[i]);
      answers := answers + [answer];
    }
  }

  // ---- The session that creates the file ----

  /** A tree of one leaf holds the keys of its root. */
  lemma RootHoldsAll(nodes: seq<Node>, firstLeaf: nat, tree: Tree, height: nat)
    requires WellFormed(PAGED, nodes, firstLeaf, tree, height) && tree.Tip?
    ensures nodes != [] && |nodes[0].keys| == |Content(Items(tree))|
    ensures forall k :: k in nodes[0].keys <==> k in Content(Items(tree))
  {
    RootPart(PAGED, nodes, firstLeaf, tree, height);
    assert Ordered(PAGED, [tree][0], height, LowOf([], None, 0), HighOf([], None, 0));
    TipFacts(PAGED, nodes, tree, None, None, None, None);
    ContentsSorted(PAGED, nodes, firstLeaf, tree, height);
    ContentSize(Items(tree));
    var z := Zip(tree.keys, tree.values);
    forall k ensures k in tree.keys <==> k in Content(z) {
      ContentKeys(z, k);
      if k in tree.keys {
        var i :| 0 <= i < |tree.keys| && tree.keys[i] == k;
        assert z[i].key == k;
      }
    }
  }

  /** An insertion is safe in the creating session exactly if the root leaf has room for all. */
  lemma SafeExactly(t: PagedBTree, key: Bytes, value: Bytes)
    requires t.Valid() && !t.Appending()
    ensures t.StaysWhole(key) <==> |t.Model()[key := value]| < ORDER
    ensures |t.Model()| < ORDER && |t.nodes| == 1
  {
    hide Content, Items, OnPages;
    RootHoldsAll(t.nodes, t.FirstLeaf(), t.tree, t.height);
    RootFits(t.nodes, t.FirstLeaf(), t.tree, t.height);
    var m := t.Model();
    assert m[key := value].Keys == m.Keys + {key};
  }

  lemma RootFits(nodes: seq<Node>, firstLeaf: nat, tree: Tree, height: nat)
    requires WellFormed(PAGED, nodes, firstLeaf, tree, height) && tree.Tip?
    ensures |nodes| == 1 && |nodes[0].keys| < ORDER
  {
    ArenaShape(PAGED, nodes, firstLeaf, tree, height, 0);
  }

  /** The session that creates the file: it answers like a plain map for as long as that has
      at most 15 keys, and loses the root at the first insertion of a 16th. */
  method RunInCreatingSession(ops: seq<Op>) returns (t: PagedBTree, answers: seq<Answer>)
    requires AllOnPagedTree(ops)
    ensures |answers| <= |ops|
    ensures |answers| == |ops| <==> forall i :: 0 <= i <= |ops| ==> |MapAfter(map[], ops[..i])| < ORDER
    ensures forall i :: 0 <= i < |answers| ==> Agrees(MapAfter(map[], ops[..i]), ops[i], answers[i])
    ensures |answers| == |ops| ==> t.Valid() && t.Model() == MapAfter(map[], ops)
    ensures |answers| < |ops| ==>
              && |MapAfter(map[], ops[..|answers| + 1])| == ORDER
              && exists oldRoot :: RootLost(oldRoot, t.nodes)
  {
    hide WellFormed, OnPages, Items, Content, Agrees, RootLost, OnPagedTree, MapAfter, Changed;
    t := new PagedBTree.Create([]);
    answers := [];
    var plain: map<Bytes, Bytes> := map[];
    assert ops[..0] == [];
    MapAfterNothing(map[]);
    for i := 0 to |ops|
      invariant fresh(t) && fresh(t.store) && fresh(t.store.cache)
      invariant t.Valid() && !t.Appending() && |answers| == i
      invariant t.Model() == plain == MapAfter(map[], ops[..i])
      invariant forall j :: 0 <= j < i ==> Agrees(MapAfter(map[], ops[..j]), ops[j], answers[j])
      invariant forall j :: 0 <= j <= i ==> |MapAfter(map[], ops[..j])| < ORDER
    {
      MapAfterOneMore(map[], ops, i);
      SafeExactly(t, [], []);
      if ops[i].InsertOp? {
        SafeExactly(t, ops[i].key, ops[i].value);
        if |plain[ops[i].key := ops[i].value]| >= ORDER {
          ghost var oldRoot := t.nodes[0];
          InsertionChanges(plain, ops[i]);
          OneKeyMore(plain, ops[i].key, ops[i].value);
          FitsSlots(ops[i]);
          t.Insert(ops[i].key, ops[i].value);
          assert RootLost(oldRoot, t.nodes);
          return;
        }
      }
      if ops[i].InsertOp? { InsertionChanges(plain, ops[i]); }
      var answer := Answered(t, ops[i]);
      answers := answers + [answer];
      plain := Changed(plain, ops[i]);
      SafeExactly(t, [], []);
    }
    assert ops[..|ops|] == ops;
  }

  lemma FitsSlots(op: Op)
    requires OnPagedTree(op) && op.InsertOp?
    ensures |op.key| <= KEY_MAX && |op.value| <= VAL_MAX
  {
  }

  lemma InsertionChanges(m: map<Bytes, Bytes>, op: Op)
    requires op.InsertOp?
    ensures Changed(m, op) == m[op.key := op.value]
  {
  }

  lemma OneKeyMore(m: map<Bytes, Bytes>, key: Bytes, value: Bytes)
    requires |m| < ORDER && |m[key := value]| >= ORDER
    ensures |m[key := value]| == ORDER
  {
    assert m[key := value].Keys == m.Keys + {key};
  }

  lemma MapAfterNothing(m: map<Bytes, Bytes>)
    ensures MapAfter(m, []) == m
  {
  }

  lemma MapAfterOneMore(m: map<Bytes, Bytes>, ops: seq<Op>, i: nat)
    requires i < |ops|
    ensures MapAfter(m, ops[..i + 1]) == Changed(MapAfter(m, ops[..i]), ops[i])
  {
    assert ops[..i + 1][..i] == ops[..i];
  }
}
