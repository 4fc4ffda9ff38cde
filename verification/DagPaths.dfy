/** Directed graphs given by a list of edges, in which an edge may occur several times. */
module DagPaths {
  type NodeId = string

  /** A data channel from an output of one node to an input of another. */
  datatype Edge = Edge(src: NodeId, srcKey: string, dst: NodeId, dstKey: string)

  predicate Linked(edges: seq<Edge>, a: NodeId, b: NodeId) {
    exists k :: 0 <= k < |edges| && edges[k].src == a && edges[k].dst == b
  }

  predicate IsPath(edges: seq<Edge>, p: seq<NodeId>) {
    p != [] && forall i :: 0 <= i < |p| - 1 ==> Linked(edges, p[i], p[i + 1])
  }

  /** A path of at least one edge that ends where it begins. */
  predicate IsCycle(edges: seq<Edge>, p: seq<NodeId>) {
    IsPath(edges, p) && |p| > 1 && p[0] == p[|p| - 1]
  }

  ghost predicate HasCycle(edges: seq<Edge>) {
    exists p :: IsCycle(edges, p)
  }

  ghost predicate Reaches(edges: seq<Edge>, a: NodeId, b: NodeId) {
    exists p :: IsPath(edges, p) && p[0] == a && p[|p| - 1] == b
  }

  predicate Distinct<T(==)>(s: seq<T>) {
    forall i, j :: 0 <= i < j < |s| ==> s[i] != s[j]
  }

  /** In `order`, every edge goes from an earlier place to a later one. */
  predicate Forward(edges: seq<Edge>, order: seq<NodeId>) {
    forall k, j :: 0 <= k < |edges| && 0 <= j < |order| && order[j] == edges[k].dst
      ==> edges[k].src in order[..j]
  }

  lemma PartOfPath(edges: seq<Edge>, p: seq<NodeId>, i: nat, j: nat)
    requires IsPath(edges, p) && i < j <= |p|
    ensures IsPath(edges, p[i..j])
  {
    hide Linked;
    var q := p[i..j];
    forall m | 0 <= m < |q| - 1 ensures Linked(edges, q[m], q[m + 1]) {
      assert q[m] == p[i + m] && q[m + 1] == p[i + m + 1];
    }
  }

  // ---- Forward orders exclude cycles ----

  /** The places of a path's nodes increase. */
  lemma {:induction false} PathGoesForward(edges: seq<Edge>, order: seq<NodeId>, p: seq<NodeId>, j: nat)
    requires Forward(edges, order) && IsPath(edges, p)
    requires j < |order| && order[j] == p[|p| - 1]
    ensures p[0] in order[..j + 1] && (|p| > 1 ==> p[0] in order[..j])
    decreases |p|
  {
    if |p| > 1 {
      var q := p[..|p| - 1];
      assert Linked(edges, p[|p| - 2], p[|p| - 1]);
      var k :| 0 <= k < |edges| && edges[k].src == p[|p| - 2] && edges[k].dst == p[|p| - 1];
      var i :| 0 <= i < j && order[i] == edges[k].src;
      PartOfPath(edges, p, 0, |p| - 1);
      assert p[0..|p| - 1] == q;
      PathGoesForward(edges, order, q, i);
      assert order[..i + 1] <= order[..j];
    }
  }

  lemma ForwardOrderHasNoCycle(edges: seq<Edge>, order: seq<NodeId>)
    requires Forward(edges, order) && Distinct(order)
    requires forall k :: 0 <= k < |edges| ==> edges[k].dst in order
    ensures !HasCycle(edges)
  {
    if p :| IsCycle(edges, p) {
      assert Linked(edges, p[|p| - 2], p[|p| - 1]);
      var j :| 0 <= j < |order| && order[j] == p[|p| - 1];
      PathGoesForward(edges, order, p, j);
    }
  }

  // ---- A set in which every node has a predecessor holds a cycle ----

  predicate HasPredecessor(edges: seq<Edge>, s: set<NodeId>, b: NodeId) {
    exists a :: a in s && Linked(edges, a, b)
  }

  lemma PredecessorOf(edges: seq<Edge>, s: set<NodeId>, b: NodeId) returns (a: NodeId)
    requires HasPredecessor(edges, s, b)
    ensures a in s && Linked(edges, a, b)
  {
    a :| a in s && Linked(edges, a, b);
  }

  /** A walk of `n` edges inside `s` that ends at `last`. */
  lemma {:induction false} BackwardWalk(edges: seq<Edge>, s: set<NodeId>, last: NodeId, n: nat) returns (p: seq<NodeId>)
    requires last in s && forall b :: b in s ==> HasPredecessor(edges, s, b)
    ensures |p| == n + 1 && IsPath(edges, p) && forall i :: 0 <= i < |p| ==> p[i] in s
    decreases n
  {
    hide HasPredecessor, Linked;
    if n == 0 {
      p := [last];
    } else {
      var q := BackwardWalk(edges, s, last, n - 1);
      var a := PredecessorOf(edges, s, q[0]);
      p := [a] + q;
    }
  }

  lemma {:induction false} Pigeonhole(p: seq<NodeId>, s: set<NodeId>) returns (i: nat, j: nat)
    requires |p| > |s| && forall m :: 0 <= m < |p| ==> p[m] in s
    ensures i < j < |p| && p[i] == p[j]
    decreases |p|
  {
    var last := |p| - 1;
    if k :| 0 <= k < last && p[k] == p[last] {
      return k, last;
    }
    i, j := Pigeonhole(p[..last], s - {p[last]});
  }

  lemma NoSourceMeansCycle(edges: seq<Edge>, s: set<NodeId>)
    requires s != {} && forall b :: b in s ==> HasPredecessor(edges, s, b)
    ensures HasCycle(edges)
  {
    hide HasPredecessor, Linked;
    var last :| last in s;
    var p := BackwardWalk(edges, s, last, |s|);
    var i, j := Pigeonhole(p, s);
    PartOfPath(edges, p, i, j + 1);
    assert IsCycle(edges, p[i..j + 1]);
  }

  // ---- Reachability ----

  lemma ReachesNext(edges: seq<Edge>, a: NodeId, b: NodeId, c: NodeId)
    requires Reaches(edges, a, b) && Linked(edges, b, c)
    ensures Reaches(edges, a, c)
  {
    var p :| IsPath(edges, p) && p[0] == a && p[|p| - 1] == b;
    assert IsPath(edges, p + [c]);
  }

  lemma ReachesItself(edges: seq<Edge>, a: NodeId)
    ensures Reaches(edges, a, a)
  {
    assert IsPath(edges, [a]);
  }

  /** What a path leads to lies in every closed set that holds its beginning. */
  lemma {:induction false} PathStaysInside(edges: seq<Edge>, p: seq<NodeId>, s: set<NodeId>)
    requires IsPath(edges, p) && p[0] in s
    requires forall a, b :: a in s && Linked(edges, a, b) ==> b in s
    ensures p[|p| - 1] in s
    decreases |p|
  {
    if |p| > 1 {
      var q := p[..|p| - 1];
      PartOfPath(edges, p, 0, |p| - 1);
      assert p[0..|p| - 1] == q;
      PathStaysInside(edges, q, s);
      assert Linked(edges, p[|p| - 2], p[|p| - 1]);
    }
  }
}
