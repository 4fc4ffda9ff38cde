/** Running workflows: every node once, or only the nodes whose results are not cached. */
module WorkflowRuns {
  import opened DagPaths
  import opened Workflow

  /** The nodes' code: what a node of a type makes of its parameters and inputs. */
  type Exec = (string, Dict, Dict) -> Dict

  // ---- What a run means ----

  function Upstream(results: map<NodeId, Dict>, e: Edge): Value {
    if e.src in results && e.srcKey in results[e.src] then results[e.src][e.srcKey] else Null
  }

  /** The inputs of a node; of several edges to one input, the last counts. */
  function InputsOf(edges: seq<Edge>, id: NodeId, results: map<NodeId, Dict>): Dict {
    if edges == [] then map[]
    else
      var e := edges[|edges| - 1];
      var inputs := InputsOf(edges[..|edges| - 1], id, results);
      if e.dst == id then inputs[e.dstKey := Upstream(results, e)] else inputs
  }

  function OutputOf(exec: Exec, nodes: map<NodeId, Node>, edges: seq<Edge>, id: NodeId, results: map<NodeId, Dict>): Dict
    requires id in nodes
  {
    exec(nodes[id].nodeType, nodes[id].params, InputsOf(edges, id, results))
  }

  /** Results for the nodes of `part` that are what these nodes make of one another's. */
  ghost predicate Consistent(exec: Exec, nodes: map<NodeId, Node>, edges: seq<Edge>, part: seq<NodeId>, results: map<NodeId, Dict>) {
    && (forall n :: n in results <==> n in part)
    && (forall n :: n in part ==> n in nodes && results[n] == OutputOf(exec, nodes, edges, n, results))
  }

  // ---- The same in terms of the edges alone ----

  /** No later edge leads to the same input. */
  predicate LastToInput(edges: seq<Edge>, k: nat)
    requires k < |edges|
  {
    forall m :: k < m < |edges| ==> !(edges[m].dst == edges[k].dst && edges[m].dstKey == edges[k].dstKey)
  }

  predicate HasInput(edges: seq<Edge>, id: NodeId, key: string) {
    exists k :: 0 <= k < |edges| && edges[k].dst == id && edges[k].dstKey == key
  }

  /** There is an input for each edge into the node, and for no other reason; it is the output
      that the last such edge names, or null if that does not exist. */
  ghost predicate Wired(edges: seq<Edge>, id: NodeId, results: map<NodeId, Dict>, inputs: Dict) {
    && (forall key :: key in inputs <==> HasInput(edges, id, key))
    && (forall k :: 0 <= k < |edges| && edges[k].dst == id && LastToInput(edges, k) ==>
          edges[k].dstKey in inputs &&
          inputs[edges[k].dstKey] ==
            if edges[k].src in results && edges[k].srcKey in results[edges[k].src] then results[edges[k].src][edges[k].srcKey] else Null)
  }

  /** Every node's result is its operation on its parameters and on inputs wired in this way. */
  ghost predicate EachRan(exec: Exec, nodes: map<NodeId, Node>, edges: seq<Edge>, results: map<NodeId, Dict>) {
    && results.Keys == nodes.Keys
    && forall id :: id in nodes ==>
         exists inputs :: Wired(edges, id, results, inputs) && results[id] == exec(nodes[id].nodeType, nodes[id].params, inputs)
  }

  lemma {:induction false} InputsAreWired(edges: seq<Edge>, id: NodeId, results: map<NodeId, Dict>)
    ensures Wired(edges, id, results, InputsOf(edges, id, results))
  {
    if edges != [] {
      var n := |edges| - 1;
      var before, e := edges[..n], edges[n];
      InputsAreWired(before, id, results);
      WiredNext(before, e, id, results, InputsOf(before, id, results));
      assert before + [e] == edges;
    }
  }

  lemma HasInputNext(edges: seq<Edge>, e: Edge, id: NodeId, key: string)
    ensures HasInput(edges + [e], id, key) <==> HasInput(edges, id, key) || (e.dst == id && e.dstKey == key)
  {
    var es := edges + [e];
    assert es[|edges|] == e && forall k :: 0 <= k < |edges| ==> es[k] == edges[k];
    if k :| 0 <= k < |edges| && edges[k].dst == id && edges[k].dstKey == key {
      assert es[k].dst == id && es[k].dstKey == key;
    }
  }

  lemma LastNext(edges: seq<Edge>, e: Edge, k: nat)
    requires k < |edges| && LastToInput(edges + [e], k)
    ensures LastToInput(edges, k) && !(e.dst == edges[k].dst && e.dstKey == edges[k].dstKey)
  {
    var es := edges + [e];
    assert es[|edges|] == e && es[k] == edges[k];
    assert forall m :: k < m < |edges| ==> es[m] == edges[m];
  }

  lemma WiredNext(edges: seq<Edge>, e: Edge, id: NodeId, results: map<NodeId, Dict>, inputs: Dict)
    requires Wired(edges, id, results, inputs)
    ensures Wired(edges + [e], id, results, if e.dst == id then inputs[e.dstKey := Upstream(results, e)] else inputs)
  {
    hide HasInput, LastToInput;
    var es := edges + [e];
    var after := if e.dst == id then inputs[e.dstKey := Upstream(results, e)] else inputs;
    forall key ensures key in after <==> HasInput(es, id, key) {
      HasInputNext(edges, e, id, key);
    }
    forall k | 0 <= k < |es| && es[k].dst == id && LastToInput(es, k)
      ensures es[k].dstKey in after && after[es[k].dstKey] == Upstream(results, es[k])
    {
      if k < |edges| {
        LastNext(edges, e, k);
      }
    }
  }

  /** Wiring leaves no choice. */
  lemma WiredIsUnique(edges: seq<Edge>, id: NodeId, results: map<NodeId, Dict>, i1: Dict, i2: Dict)
    requires Wired(edges, id, results, i1) && Wired(edges, id, results, i2)
    ensures i1 == i2
  {
    forall key | key in i1 ensures i1[key] == i2[key] {
      assert HasInput(edges, id, key);
      var k :| 0 <= k < |edges| && edges[k].dst == id && edges[k].dstKey == key;
      var m := LastEdge(edges, k);
    }
  }

  lemma LastEdge(edges: seq<Edge>, k: nat) returns (m: nat)
    requires k < |edges|
    ensures m < |edges| && edges[m].dst == edges[k].dst && edges[m].dstKey == edges[k].dstKey && LastToInput(edges, m)
    decreases |edges| - k
  {
    if LastToInput(edges, k) {
      m := k;
    } else {
      var j :| k < j < |edges| && edges[j].dst == edges[k].dst && edges[j].dstKey == edges[k].dstKey;
      m := LastEdge(edges, j);
    }
  }

  lemma ConsistentMeans(exec: Exec, nodes: map<NodeId, Node>, edges: seq<Edge>, ids: seq<NodeId>, results: map<NodeId, Dict>)
    requires Consistent(exec, nodes, edges, ids, results) && forall n :: n in ids <==> n in nodes
    ensures EachRan(exec, nodes, edges, results)
  {
    hide InputsOf, Wired;
    forall id | id in nodes
      ensures exists inputs :: Wired(edges, id, results, inputs) && results[id] == exec(nodes[id].nodeType, nodes[id].params, inputs)
    {
      InputsAreWired(edges, id, results);
    }
  }

  lemma {:induction false} InputsDepend(edges: seq<Edge>, id: NodeId, r1: map<NodeId, Dict>, r2: map<NodeId, Dict>)
    requires forall k :: 0 <= k < |edges| && edges[k].dst == id ==> Same(r1, r2, edges[k].src)
    ensures InputsOf(edges, id, r1) == InputsOf(edges, id, r2)
  {
    if edges != [] {
      var last := |edges| - 1;
      assert forall k :: 0 <= k < last ==> edges[..last][k] == edges[k];
      InputsDepend(edges[..last], id, r1, r2);
    }
  }

  predicate Same(r1: map<NodeId, Dict>, r2: map<NodeId, Dict>, id: NodeId) {
    (id in r1 <==> id in r2) && (id in r1 ==> r1[id] == r2[id])
  }

  /** A graph without cycles has only one consistent result. */
  lemma ResultIsUnique(exec: Exec, nodes: map<NodeId, Node>, edges: seq<Edge>, order: seq<NodeId>, others: seq<NodeId>, r1: map<NodeId, Dict>, r2: map<NodeId, Dict>)
    requires Forward(edges, order) && forall n :: n in order <==> n in others
    requires Consistent(exec, nodes, edges, order, r1) && Consistent(exec, nodes, edges, others, r2)
    ensures r1 == r2
  {
    forall j | 0 <= j < |order| ensures Same(r1, r2, order[j]) {
      SameAt(exec, nodes, edges, order, others, r1, r2, j);
    }
    forall n | n in r1 ensures r1[n] == r2[n] {
      var j :| 0 <= j < |order| && order[j] == n;
      assert Same(r1, r2, order[j]);
    }
  }

  lemma {:induction false} SameAt(exec: Exec, nodes: map<NodeId, Node>, edges: seq<Edge>, order: seq<NodeId>, others: seq<NodeId>, r1: map<NodeId, Dict>, r2: map<NodeId, Dict>, j: nat)
    requires Forward(edges, order) && forall n :: n in order <==> n in others
    requires Consistent(exec, nodes, edges, order, r1) && Consistent(exec, nodes, edges, others, r2)
    requires j < |order|
    ensures Same(r1, r2, order[j])
    decreases j
  {
    hide InputsOf;
    forall k | 0 <= k < |edges| && edges[k].dst == order[j] ensures Same(r1, r2, edges[k].src) {
      var i :| 0 <= i < j && order[i] == edges[k].src;
      SameAt(exec, nodes, edges, order, others, r1, r2, i);
    }
    InputsDepend(edges, order[j], r1, r2);
    assert order[j] in others;
  }

  /** A node's result is no input of the nodes before it, nor of itself. */
  lemma InputsStay(edges: seq<Edge>, order: seq<NodeId>, i: nat, j: nat, results: map<NodeId, Dict>, output: Dict)
    requires Forward(edges, order) && Distinct(order) && j <= i < |order|
    ensures InputsOf(edges, order[j], results[order[i] := output]) == InputsOf(edges, order[j], results)
  {
    hide InputsOf;
    var after := results[order[i] := output];
    forall k | 0 <= k < |edges| && edges[k].dst == order[j] ensures Same(after, results, edges[k].src) {
      var m :| 0 <= m < j && order[m] == edges[k].src;
    }
    InputsDepend(edges, order[j], after, results);
  }

  /** One more node of a forward order. */
  lemma ConsistentNext(exec: Exec, nodes: map<NodeId, Node>, edges: seq<Edge>, order: seq<NodeId>, i: nat, results: map<NodeId, Dict>, output: Dict)
    requires Forward(edges, order) && Distinct(order) && i < |order| && order[i] in nodes
    requires Consistent(exec, nodes, edges, order[..i], results)
    requires output == OutputOf(exec, nodes, edges, order[i], results)
    ensures Consistent(exec, nodes, edges, order[..i + 1], results[order[i] := output])
  {
    hide InputsOf, Forward;
    var after := results[order[i] := output];
    assert order[..i + 1] == order[..i] + [order[i]];
    forall n | n in order[..i + 1] ensures n in nodes && after[n] == OutputOf(exec, nodes, edges, n, after) {
      var j :| 0 <= j <= i && order[j] == n;
      InputsStay(edges, order, i, j, results, output);
      assert j < i ==> n in order[..i];
    }
  }

  /** The loop over the edges that collects a node's inputs. */
  method GatherInputs(graph: WorkflowGraph, id: NodeId) returns (inputs: Dict)
    ensures inputs == InputsOf(graph.edges, id, graph.results)
  {
    inputs := map[];
    for k := 0 to |graph.edges|
      invariant inputs == InputsOf(graph.edges[..k], id, graph.results)
    {
      var edge := graph.edges[k];
      assert graph.edges[..k + 1][..k] == graph.edges[..k];
      if edge.dst == id {
        inputs := inputs[edge.dstKey := Upstream(graph.results, edge)];
      }
    }
    assert graph.edges[..|graph.edges|] == graph.edges;
  }

  /** Run every node in topological order; a graph with a cycle is refused untouched. */
  method ExecuteWorkflow(graph: WorkflowGraph, exec: Exec) returns (r: Result<map<NodeId, Dict>>)
    requires graph.Valid()
    modifies graph`results
    ensures r.Ok? <==> !HasCycle(graph.edges)
    ensures r.Ok? ==> r.value == graph.results && Consistent(exec, graph.nodes, graph.edges, graph.ids, r.value)
    ensures r.Ok? ==> EachRan(exec, graph.nodes, graph.edges, r.value)
    ensures r.Err? ==> graph.results == old(graph.results) && r.error == ContainsCycle
  {
    hide OutputOf, Forward, Consistent, HasCycle, EachRan;
    var sorted := graph.TopologicalOrder();
    if sorted.Err? { return Err(sorted.error); }
    var order := sorted.value;
    graph.results := map[];
    NothingRun(exec, graph.nodes, graph.edges, order);
    for i := 0 to |order|
      invariant Consistent(exec, graph.nodes, graph.edges, order[..i], graph.results)
    {
      var nid := order[i];
      var inputs := GatherInputs(graph, nid);
      var node := graph.nodes[nid];
      var output := exec(node.nodeType, node.params, inputs);
      OutputIs(exec, graph.nodes, graph.edges, nid, graph.results);
      ConsistentNext(exec, graph.nodes, graph.edges, order, i, graph.results, output);
      graph.results := graph.results[nid := output];
    }
    AllRun(exec, graph.nodes, graph.edges, order, graph.ids, graph.results);
    ConsistentMeans(exec, graph.nodes, graph.edges, graph.ids, graph.results);
    r := Ok(graph.results);
  }

  lemma NothingRun(exec: Exec, nodes: map<NodeId, Node>, edges: seq<Edge>, order: seq<NodeId>)
    ensures Consistent(exec, nodes, edges, order[..0], map[])
  {
  }

  lemma OutputIs(exec: Exec, nodes: map<NodeId, Node>, edges: seq<Edge>, id: NodeId, results: map<NodeId, Dict>)
    requires id in nodes
    ensures OutputOf(exec, nodes, edges, id, results) == exec(nodes[id].nodeType, nodes[id].params, InputsOf(edges, id, results))
  {
  }

  lemma AllRun(exec: Exec, nodes: map<NodeId, Node>, edges: seq<Edge>, order: seq<NodeId>, ids: seq<NodeId>, results: map<NodeId, Dict>)
    requires Consistent(exec, nodes, edges, order[..|order|], results) && forall n :: n in order <==> n in ids
    ensures Consistent(exec, nodes, edges, ids, results)
  {
    assert order[..|order|] == order;
  }

  // ---- Reachability ----

  /** Between two steps of the search: everything seen is reachable, and every edge out of
      a visited node leads to a visited or a queued one. */
  ghost predicate Searching(edges: seq<Edge>, id: NodeId, visited: set<NodeId>, queue: seq<NodeId>) {
    && (id in visited || id in queue)
    && (forall n :: n in visited || n in queue ==> Reaches(edges, id, n))
    && (forall a, b :: a in visited && Linked(edges, a, b) ==> b in visited || b in queue)
  }

  /** The nodes that a search from `id` could meet. */
  ghost function Universe(edges: seq<Edge>, id: NodeId): set<NodeId> {
    {id} + set k | 0 <= k < |edges| :: edges[k].dst
  }

  function NotVisited(s: seq<NodeId>, visited: set<NodeId>): (r: seq<NodeId>)
    ensures forall n :: n in r <==> n in s && n !in visited
  {
    if s == [] then []
    else
      var last := s[|s| - 1];
      NotVisited(s[..|s| - 1], visited) + (if last in visited then [] else [last])
  }

  lemma StartSearch(edges: seq<Edge>, id: NodeId)
    ensures Searching(edges, id, {}, [id])
  {
    ReachesItself(edges, id);
  }

  lemma SkipVisited(edges: seq<Edge>, id: NodeId, visited: set<NodeId>, queue: seq<NodeId>)
    requires Searching(edges, id, visited, queue) && queue != [] && queue[0] in visited
    ensures Searching(edges, id, visited, queue[1..])
  {
    hide Reaches, Linked;
    assert queue == [queue[0]] + queue[1..];
  }

  lemma Visit(edges: seq<Edge>, id: NodeId, visited: set<NodeId>, queue: seq<NodeId>, next: seq<NodeId>)
    requires Searching(edges, id, visited, queue) && queue != [] && queue[0] !in visited
    requires next == NotVisited(Successors(edges, queue[0]), visited + {queue[0]})
    ensures Searching(edges, id, visited + {queue[0]}, queue[1..] + next)
    ensures Universe(edges, id) - (visited + {queue[0]}) < Universe(edges, id) - visited
  {
    hide Reaches, Linked, Successors, NotVisited;
    var nid := queue[0];
    var visited', queue' := visited + {nid}, queue[1..] + next;
    assert queue == [nid] + queue[1..];
    ReachedIsMet(edges, id, nid);
    assert nid in Universe(edges, id) - visited;
    forall n | n in next ensures Reaches(edges, id, n) {
      SuccessorsAreLinked(edges, nid, n);
      ReachesNext(edges, id, nid, n);
    }
    forall a, b | a in visited' && Linked(edges, a, b) ensures b in visited' || b in queue' {
      if a == nid {
        SuccessorsAreLinked(edges, nid, b);
      }
    }
  }

  lemma ReachedIsMet(edges: seq<Edge>, id: NodeId, n: NodeId)
    requires Reaches(edges, id, n)
    ensures n in Universe(edges, id)
  {
    var p :| IsPath(edges, p) && p[0] == id && p[|p| - 1] == n;
    if |p| > 1 {
      assert Linked(edges, p[|p| - 2], p[|p| - 1]);
    }
  }

  lemma SearchDone(edges: seq<Edge>, id: NodeId, visited: set<NodeId>)
    requires Searching(edges, id, visited, [])
    ensures forall n :: n in visited <==> Reaches(edges, id, n)
  {
    forall n | Reaches(edges, id, n) ensures n in visited {
      var p :| IsPath(edges, p) && p[0] == id && p[|p| - 1] == n;
      PathStaysInside(edges, p, visited);
    }
  }

  lemma SmallerSet(a: set<NodeId>, b: set<NodeId>)
    requires a < b
    ensures |a| < |b|
  {
    assert b == a + (b - a);
  }

  /** All nodes reachable from `id`, each once, breadth first. */
  method InvalidateDownstream(graph: WorkflowGraph, id: NodeId) returns (affected: seq<NodeId>)
    ensures Distinct(affected)
    ensures forall n :: n in affected <==> Reaches(graph.edges, id, n)
  {
    hide Searching, Reaches, Successors, Universe;
    var edges := graph.edges;
    var visited: set<NodeId> := {};
    var queue := [id];
    affected := [];
    StartSearch(edges, id);
    while queue != []
      invariant Searching(edges, id, visited, queue)
      invariant Distinct(affected) && forall n :: n in affected <==> n in visited
      decreases |Universe(edges, id) - visited|, |queue|
    {
      var nid := queue[0];
      if nid in visited {
        SkipVisited(edges, id, visited, queue);
        queue := queue[1..];
        continue;
      }
      var successors := Successors(edges, nid);
      Visit(edges, id, visited, queue, NotVisited(successors, visited + {nid}));
      SmallerSet(Universe(edges, id) - (visited + {nid}), Universe(edges, id) - visited);
      queue := queue[1..];
      visited := visited + {nid};
      affected := affected + [nid];
      queue := EnqueueNew(queue, successors, visited);
    }
    SearchDone(edges, id, visited);
  }

  lemma NothingVisited(visited: set<NodeId>)
    ensures NotVisited([], visited) == []
  {
  }

  lemma OneMoreVisited(s: seq<NodeId>, j: nat, visited: set<NodeId>)
    requires j < |s|
    ensures NotVisited(s[..j + 1], visited) == NotVisited(s[..j], visited) + (if s[j] in visited then [] else [s[j]])
  {
    assert s[..j + 1][..j] == s[..j];
  }

  method EnqueueNew(queue0: seq<NodeId>, successors: seq<NodeId>, visited: set<NodeId>) returns (queue: seq<NodeId>)
    ensures queue == queue0 + NotVisited(successors, visited)
  {
    hide NotVisited;
    NothingVisited(visited);
    queue := queue0;
    for j := 0 to |successors|
      invariant queue == queue0 + NotVisited(successors[..j], visited)
    {
      OneMoreVisited(successors, j, visited);
      if successors[j] !in visited {
        queue := queue + [successors[j]];
      }
    }
    assert successors[..|successors|] == successors;
  }
}
