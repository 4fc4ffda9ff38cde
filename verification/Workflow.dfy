/** Workflow graphs and the order in which their nodes run. */
module Workflow {
  import opened DagPaths

  /** The values that flow along edges, as JSON has them. */
  datatype Value = Null | Text(text: string) | Number(n: int) | List(items: seq<Value>)

  type Dict = map<string, Value>

  datatype Node = Node(nodeType: string, params: Dict)

  datatype GraphError = DuplicateNode | UnknownNodeType | SourceNotFound | DestinationNotFound | ContainsCycle

  datatype Result<+T> = Ok(value: T) | Err(error: GraphError)

  // ---- Degrees ----

  /** The ends of the edges out of `id`, one for each edge. */
  function Successors(edges: seq<Edge>, id: NodeId): seq<NodeId> {
    if edges == [] then []
    else
      var e := edges[|edges| - 1];
      Successors(edges[..|edges| - 1], id) + (if e.src == id then [e.dst] else [])
  }

  /** How many edges into `id` come from outside `done`. */
  ghost function CountIn(edges: seq<Edge>, done: set<NodeId>, id: NodeId): nat {
    if edges == [] then 0
    else
      var e := edges[|edges| - 1];
      CountIn(edges[..|edges| - 1], done, id) + (if e.dst == id && e.src !in done then 1 else 0)
  }

  lemma {:induction false} SuccessorsAreLinked(edges: seq<Edge>, a: NodeId, b: NodeId)
    ensures b in Successors(edges, a) <==> Linked(edges, a, b)
  {
    if edges != [] {
      var last := |edges| - 1;
      SuccessorsAreLinked(edges[..last], a, b);
      if Linked(edges[..last], a, b) {
        var k :| 0 <= k < last && edges[..last][k].src == a && edges[..last][k].dst == b;
        assert edges[k].src == a && edges[k].dst == b;
      }
      if Linked(edges, a, b) {
        var k :| 0 <= k < |edges| && edges[k].src == a && edges[k].dst == b;
        assert k < last ==> edges[..last][k] == edges[k];
      }
    }
  }

  /** Finishing a node takes away one count for each of its edges. */
  lemma {:induction false} CountAfter(edges: seq<Edge>, done: set<NodeId>, nid: NodeId, id: NodeId)
    requires nid !in done
    ensures CountIn(edges, done, id) == CountIn(edges, done + {nid}, id) + multiset(Successors(edges, nid))[id]
  {
    if edges != [] {
      CountAfter(edges[..|edges| - 1], done, nid, id);
    }
  }

  lemma {:induction false} NoCount(edges: seq<Edge>, done: set<NodeId>, id: NodeId)
    ensures CountIn(edges, done, id) == 0 <==> forall k :: 0 <= k < |edges| && edges[k].dst == id ==> edges[k].src in done
  {
    if edges != [] {
      var last := |edges| - 1;
      NoCount(edges[..last], done, id);
      assert forall k :: 0 <= k < last ==> edges[..last][k] == edges[k];
    }
  }

  // ---- Kahn's algorithm ----

  /** Between two steps: `pending` are the edges out of the node just taken that have not
      been counted off yet. */
  ghost predicate Counted(edges: seq<Edge>, ids: seq<NodeId>, inDegree: map<NodeId, int>, done: set<NodeId>, pending: seq<NodeId>) {
    forall n :: n in ids ==> n in inDegree && inDegree[n] == CountIn(edges, done, n) + multiset(pending)[n]
  }

  /** Exactly the nodes without a count are in the order or the queue, each once. */
  ghost predicate Queued(ids: seq<NodeId>, inDegree: map<NodeId, int>, order: seq<NodeId>, queue: seq<NodeId>) {
    && Distinct(order + queue)
    && (forall n :: n in order + queue <==> n in ids && n in inDegree && inDegree[n] == 0)
  }

  lemma HeadIsNew(order: seq<NodeId>, queue: seq<NodeId>)
    requires Distinct(order + queue) && queue != []
    ensures queue[0] !in order
  {
    forall i | 0 <= i < |order| ensures order[i] != queue[0] {
      assert (order + queue)[i] == order[i] && (order + queue)[|order|] == queue[0];
    }
  }

  lemma TakeNext(edges: seq<Edge>, ids: seq<NodeId>, inDegree: map<NodeId, int>, order: seq<NodeId>, queue: seq<NodeId>, done: set<NodeId>)
    requires Counted(edges, ids, inDegree, done, []) && Queued(ids, inDegree, order, queue)
    requires queue != [] && Forward(edges, order) && forall n :: n in done <==> n in order
    ensures Forward(edges, order + [queue[0]])
    ensures Counted(edges, ids, inDegree, done + {queue[0]}, Successors(edges, queue[0]))
    ensures Queued(ids, inDegree, order + [queue[0]], queue[1..])
  {
    var nid := queue[0];
    assert (order + queue)[|order|] == nid;
    assert nid in order + queue;
    HeadIsNew(order, queue);
    NoCount(edges, done, nid);
    forall k, j | 0 <= k < |edges| && 0 <= j < |order + [nid]| && (order + [nid])[j] == edges[k].dst
      ensures edges[k].src in (order + [nid])[..j]
    {
      if j < |order| {
        assert (order + [nid])[..j] == order[..j];
      } else {
        assert (order + [nid])[..j] == order;
      }
    }
    forall n | n in ids
      ensures inDegree[n] == CountIn(edges, done + {nid}, n) + multiset(Successors(edges, nid))[n]
    {
      CountAfter(edges, done, nid, n);
    }
    assert order + [nid] + queue[1..] == order + queue;
  }

  lemma CountOff(edges: seq<Edge>, ids: seq<NodeId>, inDegree: map<NodeId, int>, order: seq<NodeId>, queue: seq<NodeId>, done: set<NodeId>, pending: seq<NodeId>)
    requires Counted(edges, ids, inDegree, done, pending) && Queued(ids, inDegree, order, queue)
    requires pending != [] && pending[0] in ids
    ensures pending[0] in inDegree
    ensures var s := pending[0];
            var lower := inDegree[s := inDegree[s] - 1];
            && Counted(edges, ids, lower, done, pending[1..])
            && Queued(ids, lower, order, if lower[s] == 0 then queue + [s] else queue)
  {
    hide CountIn;
    var s := pending[0];
    assert pending == [s] + pending[1..];
    assert multiset(pending) == multiset{s} + multiset(pending[1..]);
    assert s !in order + queue;
    assert order + (queue + [s]) == order + queue + [s];
  }

  lemma {:induction false} DistinctCount(s: seq<NodeId>)
    requires Distinct(s)
    ensures |set n | n in s| == |s|
  {
    if s != [] {
      var last := |s| - 1;
      DistinctCount(s[..last]);
      assert s == s[..last] + [s[last]];
      assert (set n | n in s) == (set n | n in s[..last]) + {s[last]};
    }
  }

  lemma SubsetSize(a: seq<NodeId>, b: seq<NodeId>)
    requires Distinct(a) && Distinct(b) && forall n :: n in a ==> n in b
    ensures |a| <= |b| && (|a| == |b| ==> forall n :: n in b ==> n in a)
  {
    DistinctCount(a);
    DistinctCount(b);
    var x, y := set n | n in a, set n | n in b;
    assert y == x + (y - x);
    assert |a| == |b| ==> y - x == {};
    forall n | |a| == |b| && n in b ensures n in a {
      assert n in x + (y - x);
    }
  }

  /** When the queue has run empty, the order is complete exactly if there is no cycle. */
  lemma Finished(edges: seq<Edge>, ids: seq<NodeId>, inDegree: map<NodeId, int>, order: seq<NodeId>, done: set<NodeId>)
    requires Counted(edges, ids, inDegree, done, []) && Queued(ids, inDegree, order, [])
    requires Forward(edges, order) && Distinct(ids) && forall n :: n in done <==> n in order
    requires forall k :: 0 <= k < |edges| ==> edges[k].src in ids && edges[k].dst in ids
    ensures |order| == |ids| ==> Distinct(order) && (forall n :: n in order <==> n in ids) && !HasCycle(edges)
    ensures |order| != |ids| ==> HasCycle(edges)
  {
    assert order + [] == order;
    SubsetSize(order, ids);
    if |order| == |ids| {
      ForwardOrderHasNoCycle(edges, order);
    } else {
      var left := set n | n in ids && n !in done;
      if left == {} {
        forall n | n in ids ensures n in order {
          assert n !in left;
        }
        SubsetSize(ids, order);
      }
      forall b | b in left ensures HasPredecessor(edges, left, b) {
        NoCount(edges, done, b);
        var k :| 0 <= k < |edges| && edges[k].dst == b && edges[k].src !in done;
        assert Linked(edges, edges[k].src, b);
      }
      NoSourceMeansCycle(edges, left);
    }
  }

  class WorkflowGraph {
    /** The node ids in the order of their addition. */
    var ids: seq<NodeId>
    var nodes: map<NodeId, Node>
    var edges: seq<Edge>
    var results: map<NodeId, Dict>

    ghost predicate Valid()
      reads this
    {
      && Distinct(ids) && (forall n :: n in ids <==> n in nodes)
      && (forall k :: 0 <= k < |edges| ==> edges[k].src in nodes && edges[k].dst in nodes)
    }

    constructor ()
      ensures Valid() && ids == [] && nodes == map[] && edges == [] && results == map[]
    {
      ids, nodes, edges, results := [], map[], [], map[];
    }

    method AddNode(id: NodeId, nodeType: string, params: Dict, known: set<string>) returns (r: Result<()>)
      requires Valid()
      modifies this
      ensures Valid() && edges == old(edges) && results == old(results)
      ensures r == if id in old(nodes) then Err(DuplicateNode) else if nodeType !in known then Err(UnknownNodeType) else Ok(())
      ensures nodes == if r.Ok? then old(nodes)[id := Node(nodeType, params)] else old(nodes)
      ensures ids == if r.Ok? then old(ids) + [id] else old(ids)
    {
      if id in nodes { return Err(DuplicateNode); }
      if nodeType !in known { return Err(UnknownNodeType); }
      nodes := nodes[id := Node(nodeType, params)];
      ids := ids + [id];
      r := Ok(());
    }

    method AddEdge(src: NodeId, srcKey: string, dst: NodeId, dstKey: string) returns (r: Result<()>)
      requires Valid()
      modifies this
      ensures Valid() && ids == old(ids) && nodes == old(nodes) && results == old(results)
      ensures r == if src !in nodes then Err(SourceNotFound) else if dst !in nodes then Err(DestinationNotFound) else Ok(())
      ensures edges == if r.Ok? then old(edges) + [Edge(src, srcKey, dst, dstKey)] else old(edges)
    {
      if src !in nodes { return Err(SourceNotFound); }
      if dst !in nodes { return Err(DestinationNotFound); }
      edges := edges + [Edge(src, srcKey, dst, dstKey)];
      r := Ok(());
    }

    /** Every node once, with every edge pointing forward, or an error exactly if there is
        a cycle. */
    method TopologicalOrder() returns (r: Result<seq<NodeId>>)
      requires Valid()
      ensures r.Ok? <==> !HasCycle(edges)
      ensures r.Ok? ==> Distinct(r.value) && (forall n :: n in r.value <==> n in nodes) && Forward(edges, r.value)
      ensures r.Err? ==> r.error == ContainsCycle
    {
      hide CountIn, HasCycle, Forward, Successors;
      var inDegree, adj := BuildDegrees();
      var queue: seq<NodeId> := [];
      for i := 0 to |ids|
        invariant Distinct(queue) && forall n :: n in queue <==> n in ids[..i] && inDegree[n] == 0
      {
        assert ids[..i + 1] == ids[..i] + [ids[i]];
        if inDegree[ids[i]] == 0 {
          queue := queue + [ids[i]];
        }
      }
      assert ids[..|ids|] == ids;
      var order: seq<NodeId> := [];
      ghost var done: set<NodeId> := {};
      assert order + queue == queue;
      SubsetSize(queue, ids);
      EmptyIsForward(edges);
      while queue != []
        invariant Counted(edges, ids, inDegree, done, []) && Queued(ids, inDegree, order, queue)
        invariant Forward(edges, order) && forall n :: n in done <==> n in order
        invariant |order| + |queue| <= |ids|
        decreases |ids| - |order|
      {
        TakeNext(edges, ids, inDegree, order, queue, done);
        var nid := queue[0];
        queue := queue[1..];
        order := order + [nid];
        done := done + {nid};
        inDegree, queue := CountOffAll(inDegree, queue, AdjacentTo(adj, nid), order, done, nid);
        assert Distinct(order + queue);
        SubsetSize(order + queue, ids);
      }
      Finished(edges, ids, inDegree, order, done);
      if |order| != |ids| { return Err(ContainsCycle); }
      r := Ok(order);
    }

    /** The in-degree of every node, and the ends of the edges out of it. */
    method BuildDegrees() returns (inDegree: map<NodeId, int>, adj: map<NodeId, seq<NodeId>>)
      requires Valid()
      ensures inDegree.Keys == nodes.Keys
      ensures Counted(edges, ids, inDegree, {}, [])
      ensures forall n :: AdjacentTo(adj, n) == Successors(edges, n)
    {
      hide CountIn, Successors;
      inDegree := map n | n in nodes :: 0;
      adj := map[];
      NoEdges();
      for i := 0 to |edges|
        invariant inDegree.Keys == nodes.Keys
        invariant forall n :: n in ids ==> inDegree[n] == CountIn(edges[..i], {}, n)
        invariant forall n :: AdjacentTo(adj, n) == Successors(edges[..i], n)
      {
        var edge := edges[i];
        OneMoreEdge(edges, i);
        ghost var before := adj;
        adj := adj[edge.src := AdjacentTo(adj, edge.src) + [edge.dst]];
        forall n ensures AdjacentTo(adj, n) == Successors(edges[..i + 1], n) {
          assert AdjacentTo(before, n) == Successors(edges[..i], n);
        }
        inDegree := inDegree[edge.dst := inDegree[edge.dst] + 1];
      }
      assert edges[..|edges|] == edges;
    }

    /** Count off the edges out of the node just taken. */
    method CountOffAll(inDegree0: map<NodeId, int>, queue0: seq<NodeId>, successors: seq<NodeId>, ghost order: seq<NodeId>, ghost done: set<NodeId>, ghost nid: NodeId)
      returns (inDegree: map<NodeId, int>, queue: seq<NodeId>)
      requires Valid() && successors == Successors(edges, nid)
      requires Counted(edges, ids, inDegree0, done, successors) && Queued(ids, inDegree0, order, queue0)
      ensures Counted(edges, ids, inDegree, done, []) && Queued(ids, inDegree, order, queue)
    {
      hide CountIn, Counted, Queued, Successors;
      inDegree, queue := inDegree0, queue0;
      assert successors[0..] == successors;
      for j := 0 to |successors|
        invariant Counted(edges, ids, inDegree, done, successors[j..]) && Queued(ids, inDegree, order, queue)
      {
        var successor := successors[j];
        SuccessorIsNode(nid, successor);
        assert successors[j..][1..] == successors[j + 1..] && successors[j..][0] == successor;
        CountOff(edges, ids, inDegree, order, queue, done, successors[j..]);
        inDegree := inDegree[successor := inDegree[successor] - 1];
        if inDegree[successor] == 0 {
          queue := queue + [successor];
        }
      }
      assert successors[|successors|..] == [];
    }

    lemma SuccessorIsNode(a: NodeId, b: NodeId)
      requires Valid() && b in Successors(edges, a)
      ensures b in ids
    {
      SuccessorsAreLinked(edges, a, b);
    }
  }

  lemma NoEdges()
    ensures forall n, done :: CountIn([], done, n) == 0
    ensures forall n :: Successors([], n) == []
  {
  }

  lemma OneMoreEdge(edges: seq<Edge>, i: nat)
    requires i < |edges|
    ensures forall n :: CountIn(edges[..i + 1], {}, n) == CountIn(edges[..i], {}, n) + (if edges[i].dst == n then 1 else 0)
    ensures forall n :: Successors(edges[..i + 1], n) ==
              if edges[i].src == n then Successors(edges[..i], n) + [edges[i].dst] else Successors(edges[..i], n)
  {
    assert edges[..i + 1][..i] == edges[..i];
  }

  lemma EmptyIsForward(edges: seq<Edge>)
    ensures Forward(edges, [])
  {
  }

  function AdjacentTo(adj: map<NodeId, seq<NodeId>>, id: NodeId): seq<NodeId> {
    if id in adj then adj[id] else []
  }
}
