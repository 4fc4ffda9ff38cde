/** Running workflows with a cache of results, addressed by what a node is given. */
module WorkflowCache {
  import opened DagPaths
  import opened Workflow
  import opened WorkflowRuns

  /** The two hash functions: of a value, and of a node's type, parameters and hashed
      inputs. */
  datatype Hashing = Hashing(digest: Value -> string, keyOf: (string, Dict, map<string, string>) -> string)

  function KeyFor(h: Hashing, nodeType: string, params: Dict, inputs: Dict): string {
    h.keyOf(nodeType, params, map name | name in inputs :: h.digest(inputs[name]))
  }

  ghost predicate CollisionFree(h: Hashing) {
    && (forall a, b :: h.digest(a) == h.digest(b) ==> a == b)
    && (forall t, p, i, t', p', i' :: h.keyOf(t, p, i) == h.keyOf(t', p', i') ==> t == t' && p == p' && i == i')
  }

  /** Whatever two nodes share a key also share their output. */
  ghost predicate KeysTell(h: Hashing, exec: Exec) {
    forall t, p, i, t', p', i' :: KeyFor(h, t, p, i) == KeyFor(h, t', p', i') ==> exec(t, p, i) == exec(t', p', i')
  }

  lemma CollisionFreeKeysTell(h: Hashing, exec: Exec)
    requires CollisionFree(h)
    ensures KeysTell(h, exec)
  {
    forall t, p, i: Dict, t', p', i': Dict | KeyFor(h, t, p, i) == KeyFor(h, t', p', i') ensures exec(t, p, i) == exec(t', p', i') {
      var m := map name | name in i :: h.digest(i[name]);
      var m' := map name | name in i' :: h.digest(i'[name]);
      assert h.keyOf(t, p, m) == h.keyOf(t', p', m');
      assert m == m';
      assert i.Keys == m.Keys && i'.Keys == m'.Keys;
      forall name | name in i ensures i[name] == i'[name] {
        assert m[name] == m'[name];
      }
      assert i == i';
    }
  }

  /** Every cached result is the output of all the nodes with its key. */
  ghost predicate CacheSound(h: Hashing, exec: Exec, store: map<string, Dict>) {
    forall t, p, i :: KeyFor(h, t, p, i) in store ==> store[KeyFor(h, t, p, i)] == exec(t, p, i)
  }

  lemma StoredIsSound(h: Hashing, exec: Exec, store: map<string, Dict>, t: string, p: Dict, i: Dict)
    requires KeysTell(h, exec) && CacheSound(h, exec, store)
    ensures CacheSound(h, exec, store[KeyFor(h, t, p, i) := exec(t, p, i)])
  {
    hide KeyFor;
  }

  lemma DroppedIsSound(h: Hashing, exec: Exec, store: map<string, Dict>, keys: set<string>)
    requires CacheSound(h, exec, store)
    ensures CacheSound(h, exec, store - keys)
  {
    hide KeyFor;
  }

  function NodeKey(h: Hashing, nodes: map<NodeId, Node>, edges: seq<Edge>, id: NodeId, results: map<NodeId, Dict>): string
    requires id in nodes
  {
    KeyFor(h, nodes[id].nodeType, nodes[id].params, InputsOf(edges, id, results))
  }

  class CacheStore {
    var store: map<string, Dict>

    constructor ()
      ensures store == map[]
    {
      store := map[];
    }
  }

  /** `keys` holds the key of every node of `part`. */
  ghost predicate Keyed(h: Hashing, nodes: map<NodeId, Node>, edges: seq<Edge>, part: seq<NodeId>, results: map<NodeId, Dict>, keys: map<NodeId, string>) {
    forall n :: n in part ==> n in nodes && n in keys && keys[n] == NodeKey(h, nodes, edges, n, results)
  }

  function KeysOf(part: seq<NodeId>, keys: map<NodeId, string>): set<string> {
    set n | n in part && n in keys :: keys[n]
  }

  lemma KeyedNext(h: Hashing, nodes: map<NodeId, Node>, edges: seq<Edge>, order: seq<NodeId>, i: nat, results: map<NodeId, Dict>, output: Dict, keys: map<NodeId, string>)
    requires Forward(edges, order) && Distinct(order) && i < |order| && order[i] in nodes
    requires Keyed(h, nodes, edges, order[..i], results, keys)
    ensures var key := NodeKey(h, nodes, edges, order[i], results);
            && Keyed(h, nodes, edges, order[..i + 1], results[order[i] := output], keys[order[i] := key])
            && KeysOf(order[..i + 1], keys[order[i] := key]) == KeysOf(order[..i], keys) + {key}
  {
    hide InputsOf, Forward, KeyFor;
    var nid := order[i];
    var keys' := keys[nid := NodeKey(h, nodes, edges, nid, results)];
    assert order[..i + 1] == order[..i] + [nid];
    forall n | n in order[..i + 1]
      ensures n in nodes && n in keys' && keys'[n] == NodeKey(h, nodes, edges, n, results[nid := output])
    {
      var j :| 0 <= j <= i && order[j] == n;
      InputsStay(edges, order, i, j, results, output);
      assert j < i ==> n in order[..i] && n != nid;
    }
    forall n | n in order[..i] ensures n != nid {
      var j :| 0 <= j < i && order[j] == n;
    }
    assert KeysOf(order[..i], keys') == KeysOf(order[..i], keys);
    assert nid in order[..i + 1];
  }

  /** What a cache lookup yields, and what running the node would. */
  lemma CachedIsOutput(h: Hashing, exec: Exec, store: map<string, Dict>, nodes: map<NodeId, Node>, edges: seq<Edge>, id: NodeId, results: map<NodeId, Dict>)
    requires CacheSound(h, exec, store) && KeysTell(h, exec) && id in nodes
    ensures var key, output := NodeKey(h, nodes, edges, id, results), OutputOf(exec, nodes, edges, id, results);
            && (key in store ==> store[key] == output)
            && CacheSound(h, exec, store[key := output])
  {
    hide KeyFor, InputsOf, KeysTell;
    StoredIsSound(h, exec, store, nodes[id].nodeType, nodes[id].params, InputsOf(edges, id, results));
  }

  /** After the first `i` nodes of the order: their results, their keys, and a sound cache
      that holds these keys beside the ones of `before`. */
  ghost predicate Ran(h: Hashing, exec: Exec, nodes: map<NodeId, Node>, edges: seq<Edge>, part: seq<NodeId>,
                      results: map<NodeId, Dict>, keys: map<NodeId, string>, store: map<string, Dict>, before: set<string>) {
    && Consistent(exec, nodes, edges, part, results)
    && Keyed(h, nodes, edges, part, results, keys)
    && CacheSound(h, exec, store)
    && store.Keys == before + KeysOf(part, keys)
  }

  lemma RanNothing(h: Hashing, exec: Exec, nodes: map<NodeId, Node>, edges: seq<Edge>, order: seq<NodeId>, keys: map<NodeId, string>, store: map<string, Dict>)
    requires CacheSound(h, exec, store)
    ensures Ran(h, exec, nodes, edges, order[..0], map[], keys, store, store.Keys)
  {
    hide CacheSound;
    NothingRun(exec, nodes, edges, order);
  }

  lemma RanNext(h: Hashing, exec: Exec, nodes: map<NodeId, Node>, edges: seq<Edge>, order: seq<NodeId>, i: nat,
                results: map<NodeId, Dict>, keys: map<NodeId, string>, store: map<string, Dict>, before: set<string>, inputs: Dict)
    requires KeysTell(h, exec) && Forward(edges, order) && Distinct(order) && i < |order| && order[i] in nodes
    requires Ran(h, exec, nodes, edges, order[..i], results, keys, store, before)
    requires inputs == InputsOf(edges, order[i], results)
    ensures var nid := order[i];
            var key := KeyFor(h, nodes[nid].nodeType, nodes[nid].params, inputs);
            var output := exec(nodes[nid].nodeType, nodes[nid].params, inputs);
            && (key in store ==> store[key] == output)
            && Ran(h, exec, nodes, edges, order[..i + 1], results[nid := output], keys[nid := key], store[key := output], before)
  {
    hide Forward, Distinct, KeysTell, CacheSound, Consistent, Keyed, KeysOf, InputsOf, KeyFor;
    CachedIsOutput(h, exec, store, nodes, edges, order[i], results);
    ConsistentNext(exec, nodes, edges, order, i, results, OutputOf(exec, nodes, edges, order[i], results));
    KeyedNext(h, nodes, edges, order, i, results, OutputOf(exec, nodes, edges, order[i], results), keys);
  }

  lemma RanAll(h: Hashing, exec: Exec, nodes: map<NodeId, Node>, edges: seq<Edge>, order: seq<NodeId>, ids: seq<NodeId>,
               results: map<NodeId, Dict>, keys: map<NodeId, string>, store: map<string, Dict>, before: set<string>)
    requires Ran(h, exec, nodes, edges, order[..|order|], results, keys, store, before)
    requires Distinct(order) && Distinct(ids) && forall n :: n in order <==> n in ids
    ensures Ran(h, exec, nodes, edges, ids, results, keys, store, before) && |order| == |ids|
  {
    hide CacheSound, NodeKey, OutputOf;
    assert order[..|order|] == order;
    SubsetSize(order, ids);
    SubsetSize(ids, order);
    assert KeysOf(order, keys) == KeysOf(ids, keys);
  }

  lemma RanMeans(h: Hashing, exec: Exec, nodes: map<NodeId, Node>, edges: seq<Edge>, ids: seq<NodeId>,
                 results: map<NodeId, Dict>, keys: map<NodeId, string>, store: map<string, Dict>, before: set<string>)
    requires Ran(h, exec, nodes, edges, ids, results, keys, store, before)
    ensures Consistent(exec, nodes, edges, ids, results) && Keyed(h, nodes, edges, ids, results, keys)
    ensures CacheSound(h, exec, store) && store.Keys == before + KeysOf(ids, keys)
  {
  }

  class CachingExecutor {
    const exec: Exec
    const hashing: Hashing
    /** Possibly shared with other executors. */
    const cache: CacheStore
    /** The last key of each node. */
    var nodeKeys: map<NodeId, string>
    var cacheHits: nat
    var cacheMisses: nat
    var nodesExecuted: nat

    ghost predicate Valid()
      reads cache
    {
      KeysTell(hashing, exec) && CacheSound(hashing, exec, cache.store)
    }

    constructor (exec: Exec, hashing: Hashing, cache: CacheStore)
      ensures this.exec == exec && this.hashing == hashing && this.cache == cache
      ensures nodeKeys == map[] && cacheHits == 0 && cacheMisses == 0 && nodesExecuted == 0
    {
      this.exec, this.hashing, this.cache := exec, hashing, cache;
      nodeKeys, cacheHits, cacheMisses, nodesExecuted := map[], 0, 0, 0;
    }

    /** Run a workflow, executing only the nodes whose key is not in the cache. */
    method Run(graph: WorkflowGraph) returns (r: Result<map<NodeId, Dict>>)
      requires Valid() && graph.Valid()
      modifies this, cache, graph`results
      ensures Valid()
      ensures r.Ok? <==> !HasCycle(graph.edges)
      ensures r.Ok? ==> r.value == graph.results && Consistent(exec, graph.nodes, graph.edges, graph.ids, r.value)
      ensures r.Ok? ==> EachRan(exec, graph.nodes, graph.edges, r.value)
      ensures r.Ok? ==> Keyed(hashing, graph.nodes, graph.edges, graph.ids, r.value, nodeKeys)
      ensures r.Ok? ==> cache.store.Keys == old(cache.store.Keys) + KeysOf(graph.ids, nodeKeys)
      ensures r.Ok? ==> cacheHits + cacheMisses == old(cacheHits + cacheMisses) + |graph.ids|
      ensures nodesExecuted - old(nodesExecuted) == cacheMisses - old(cacheMisses) == |cache.store| - old(|cache.store|)
      ensures r.Err? ==> r == Err(ContainsCycle) && graph.results == old(graph.results) && cache.store == old(cache.store)
    {
      hide Forward, HasCycle, Ran, KeysTell, KeyFor, InputsOf, Distinct, EachRan, Consistent;
      var sorted := graph.TopologicalOrder();
      if sorted.Err? { return Err(sorted.error); }
      var order := sorted.value;
      graph.results := map[];
      RanNothing(hashing, exec, graph.nodes, graph.edges, order, nodeKeys, cache.store);
      for i := 0 to |order|
        invariant Ran(hashing, exec, graph.nodes, graph.edges, order[..i], graph.results, nodeKeys, cache.store, old(cache.store.Keys))
        invariant cacheHits + cacheMisses == old(cacheHits + cacheMisses) + i
        invariant nodesExecuted - old(nodesExecuted) == cacheMisses - old(cacheMisses) == |cache.store| - old(|cache.store|)
      {
        var nid := order[i];
        var node := graph.nodes[nid];
        var inputs := GatherInputs(graph, nid);
        var key := KeyFor(hashing, node.nodeType, node.params, inputs);
        RanNext(hashing, exec, graph.nodes, graph.edges, order, i, graph.results, nodeKeys, cache.store, old(cache.store.Keys), inputs);
        nodeKeys := nodeKeys[nid := key];
        if key in cache.store {
          assert cache.store[key := cache.store[key]] == cache.store;
          cacheHits := cacheHits + 1;
          graph.results := graph.results[nid := cache.store[key]];
        } else {
          cacheMisses := cacheMisses + 1;
          nodesExecuted := nodesExecuted + 1;
          var output := exec(node.nodeType, node.params, inputs);
          cache.store := cache.store[key := output];
          graph.results := graph.results[nid := output];
        }
      }
      RanAll(hashing, exec, graph.nodes, graph.edges, order, graph.ids, graph.results, nodeKeys, cache.store, old(cache.store.Keys));
      RanMeans(hashing, exec, graph.nodes, graph.edges, graph.ids, graph.results, nodeKeys, cache.store, old(cache.store.Keys));
      ConsistentMeans(exec, graph.nodes, graph.edges, graph.ids, graph.results);
      r := Ok(graph.results);
    }

    /** Forget the cached results of a node and of all nodes reachable from it. */
    method InvalidateNode(graph: WorkflowGraph, id: NodeId)
      requires Valid()
      modifies cache
      ensures Valid()
      ensures forall key :: key in cache.store <==>
                key in old(cache.store) && !exists n :: Reaches(graph.edges, id, n) && n in nodeKeys && nodeKeys[n] == key
      ensures forall key :: key in cache.store ==> cache.store[key] == old(cache.store)[key]
    {
      hide Reaches, KeysTell, CacheSound;
      var affected := InvalidateDownstream(graph, id);
      for i := 0 to |affected|
        invariant CacheSound(hashing, exec, cache.store)
        invariant cache.store == old(cache.store) - KeysOf(affected[..i], nodeKeys)
      {
        assert affected[..i + 1] == affected[..i] + [affected[i]];
        if affected[i] in nodeKeys {
          DroppedIsSound(hashing, exec, cache.store, {nodeKeys[affected[i]]});
          cache.store := cache.store - {nodeKeys[affected[i]]};
        }
      }
      assert affected[..|affected|] == affected;
    }
  }

  /** A cached run gives what a plain run gives, whatever was cached before. */
  method CompareRuns(executor: CachingExecutor, graph: WorkflowGraph) returns (cached: Result<map<NodeId, Dict>>, plain: Result<map<NodeId, Dict>>)
    requires executor.Valid() && graph.Valid()
    modifies executor, executor.cache, graph`results
    ensures executor.Valid() && cached == plain
  {
    hide HasCycle, Consistent, EachRan, KeysTell, CacheSound, Forward, Keyed, KeysOf, Distinct;
    cached := executor.Run(graph);
    plain := ExecuteWorkflow(graph, executor.exec);
    if plain.Ok? {
      var order := graph.TopologicalOrder();
      ResultsAgree(executor.exec, graph.nodes, graph.edges, order.value, graph.ids, cached.value, plain.value);
    }
  }

  lemma ResultsAgree(exec: Exec, nodes: map<NodeId, Node>, edges: seq<Edge>, order: seq<NodeId>, ids: seq<NodeId>, r1: map<NodeId, Dict>, r2: map<NodeId, Dict>)
    requires Forward(edges, order) && forall n :: n in order <==> n in ids
    requires Consistent(exec, nodes, edges, ids, r1) && Consistent(exec, nodes, edges, ids, r2)
    ensures r1 == r2
  {
    ResultIsUnique(exec, nodes, edges, order, ids, r1, r2);
  }

  /** A second run of the same workflow finds every node in the cache, and gives the same
      results. */
  method RunTwice(executor: CachingExecutor, graph: WorkflowGraph) returns (first: Result<map<NodeId, Dict>>, second: Result<map<NodeId, Dict>>, executed: int)
    requires executor.Valid() && graph.Valid()
    modifies executor, executor.cache, graph`results
    ensures executor.Valid() && first == second && executed == 0
  {
    hide HasCycle, Consistent, EachRan, KeysTell, CacheSound, Forward, Keyed, KeysOf, Distinct;
    first := executor.Run(graph);
    var soFar := executor.nodesExecuted;
    ghost var keys, stored := executor.nodeKeys, executor.cache.store;
    second := executor.Run(graph);
    executed := executor.nodesExecuted - soFar;
    if first.Ok? {
      var order := graph.TopologicalOrder();
      ResultsAgree(executor.exec, graph.nodes, graph.edges, order.value, graph.ids, first.value, second.value);
      SameKeys(executor.hashing, graph.nodes, graph.edges, graph.ids, first.value, keys, executor.nodeKeys);
      SameSize(stored, executor.cache.store);
    }
  }

  lemma SameKeys(h: Hashing, nodes: map<NodeId, Node>, edges: seq<Edge>, ids: seq<NodeId>, results: map<NodeId, Dict>, keys: map<NodeId, string>, keys': map<NodeId, string>)
    requires Keyed(h, nodes, edges, ids, results, keys) && Keyed(h, nodes, edges, ids, results, keys')
    ensures KeysOf(ids, keys) == KeysOf(ids, keys')
  {
    hide NodeKey;
    forall n | n in ids ensures keys[n] == keys'[n] {
    }
  }

  lemma SameSize(a: map<string, Dict>, b: map<string, Dict>)
    requires a.Keys == b.Keys
    ensures |a| == |b|
  {
    assert |a| == |a.Keys| && |b| == |b.Keys|;
  }
}
