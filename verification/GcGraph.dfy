/** Heaps as graphs, reachability, and what a collection ought to do. */
module GcGraph {
  import opened ByteStrings
  import opened Options

  type Handle = nat

  datatype GcValue = GcValue(data: Bytes, refs: seq<Handle>)

  /** The references of every live object. */
  type Graph = map<Handle, seq<Handle>>

  ghost predicate IsPath(g: Graph, roots: seq<Handle>, p: seq<Handle>) {
    && p != [] && p[0] in roots
    && (forall i :: 0 <= i < |p| ==> p[i] in g)
    && (forall i :: 0 < i < |p| ==> p[i] in g[p[i - 1]])
  }

  /** `h` is live and some path of live references leads to it from a root. */
  ghost predicate Reachable(g: Graph, roots: seq<Handle>, h: Handle) {
    exists p :: IsPath(g, roots, p) && p[|p| - 1] == h
  }

  ghost function Reach(g: Graph, roots: seq<Handle>): set<Handle> {
    set h | h in g && Reachable(g, roots, h)
  }

  /** `s` holds the live roots and, with an object, the live objects it refers to. */
  ghost predicate Closed(g: Graph, roots: seq<Handle>, s: set<Handle>) {
    && (forall h :: h in roots && h in g ==> h in s)
    && (forall h, r :: h in s && h in g && r in g[h] && r in g ==> r in s)
  }

  lemma RootReachable(g: Graph, roots: seq<Handle>, h: Handle)
    requires h in roots && h in g
    ensures h in Reach(g, roots)
  {
    assert IsPath(g, roots, [h]);
  }

  lemma StepReachable(g: Graph, roots: seq<Handle>, h: Handle, r: Handle)
    requires h in Reach(g, roots) && r in g[h] && r in g
    ensures r in Reach(g, roots)
  {
    var p :| IsPath(g, roots, p) && p[|p| - 1] == h;
    var q := p + [r];
    assert IsPath(g, roots, q) by {
      forall i | 0 < i < |q| ensures q[i] in g[q[i - 1]] {
        if i < |p| { assert q[i] == p[i] && q[i - 1] == p[i - 1]; }
      }
    }
    assert q[|q| - 1] == r;
  }

  lemma {:induction false} PathInClosed(g: Graph, roots: seq<Handle>, s: set<Handle>, p: seq<Handle>)
    requires Closed(g, roots, s) && IsPath(g, roots, p)
    ensures p[|p| - 1] in s
    decreases |p|
  {
    if |p| > 1 {
      PathInClosed(g, roots, s, p[..|p| - 1]);
    }
  }

  /** Reachable objects are the least closed set. */
  lemma ReachIsLeastClosed(g: Graph, roots: seq<Handle>)
    ensures Closed(g, roots, Reach(g, roots))
    ensures forall s :: Closed(g, roots, s) ==> Reach(g, roots) <= s
  {
    forall h | h in roots && h in g ensures h in Reach(g, roots) {
      RootReachable(g, roots, h);
    }
    forall h, r | h in Reach(g, roots) && r in g[h] && r in g ensures r in Reach(g, roots) {
      StepReachable(g, roots, h, r);
    }
    forall s, h | Closed(g, roots, s) && h in Reach(g, roots) ensures h in s {
      var p :| IsPath(g, roots, p) && p[|p| - 1] == h;
      PathInClosed(g, roots, s, p);
    }
  }

  // ---- The free list ----

  /** `free` lists the empty slots of a heap of `n` slots, each once. */
  ghost predicate ListsFreeSlots(free: seq<Handle>, live: set<Handle>, n: nat) {
    && (forall i, j :: 0 <= i < j < |free| ==> free[i] != free[j])
    && (forall i :: i in free <==> 0 <= i < n && i !in live)
  }

  /** Dropping the last of a list without repeats removes just that element. */
  lemma LastOnce(s: seq<Handle>)
    requires s != [] && forall i, j :: 0 <= i < j < |s| ==> s[i] != s[j]
    ensures forall h :: h in s[..|s| - 1] <==> h in s && h != s[|s| - 1]
  {
    var rest := s[..|s| - 1];
    assert forall i :: 0 <= i < |rest| ==> rest[i] == s[i] && s[i] != s[|s| - 1];
    forall h ensures h in rest <==> h in s && h != s[|s| - 1] {
      assert s == rest + [s[|s| - 1]];
    }
  }

  /** Taking the last free slot, or growing a full heap by one slot. */
  lemma SlotTaken(free: seq<Handle>, live: set<Handle>, n: nat)
    requires ListsFreeSlots(free, live, n)
    ensures free != [] ==>
              var h := free[|free| - 1];
              h < n && h !in live && ListsFreeSlots(free[..|free| - 1], live + {h}, n)
    ensures free == [] && (forall i :: i in live ==> i < n) ==> n !in live && ListsFreeSlots([], live + {n}, n + 1)
  {
    if free != [] {
      var h := free[|free| - 1];
      assert h in free;
      LastOnce(free);
      var rest := free[..|free| - 1];
      assert forall i, j :: 0 <= i < j < |rest| ==> rest[i] == free[i] && rest[j] == free[j];
      assert forall i :: i in rest <==> i in free && i != h;
    } else {
      forall i ensures i in free <==> 0 <= i < n + 1 && i !in live + {n} {
        assert i in free <==> 0 <= i < n && i !in live;
      }
    }
  }

  /** The handles below `n` that a collection keeping `kept` frees from `live`. */
  ghost function Freed(live: set<Handle>, kept: set<Handle>, n: nat): (r: seq<Handle>)
    ensures forall i :: i in r <==> i < n && i in live && i !in kept
    ensures forall i :: 0 <= i < |r| ==> r[i] < n
    ensures forall i, j :: 0 <= i < j < |r| ==> r[i] < r[j]
  {
    if n == 0 then []
    else
      var r := Freed(live, kept, n - 1);
      if n - 1 in live && n - 1 !in kept then r + [n - 1] else r
  }

  lemma FreedKeepsList(free: seq<Handle>, live: set<Handle>, kept: set<Handle>, n: nat)
    requires ListsFreeSlots(free, live, n) && kept <= live
    ensures ListsFreeSlots(free + Freed(live, kept, n), kept, n)
  {
    var r := Freed(live, kept, n);
    var all := free + r;
    forall i, j | 0 <= i < j < |all| ensures all[i] != all[j] {
      if i < |free| <= j {
        assert all[i] in free && all[j] in r;
      }
    }
    forall i ensures i in all <==> 0 <= i < n && i !in kept {
      assert i in all <==> i in free || i in r;
    }
  }

  // ---- Slots ----

  /** A heap without the collector's own marks. */
  type Slots = seq<Option<GcValue>>

  function LiveSlots(s: Slots): set<Handle> {
    set h | 0 <= h < |s| && s[h].Some?
  }

  function GraphOf(s: Slots): Graph {
    map h | h in LiveSlots(s) :: s[h].value.refs
  }

  /** `s'` is `s` with everything outside `kept` freed. */
  ghost predicate Swept(s: Slots, s': Slots, kept: set<Handle>) {
    && |s'| == |s|
    && forall h :: 0 <= h < |s| ==> s'[h] == if h in kept then s[h] else None
  }

  lemma ReachIsLive(s: Slots, roots: seq<Handle>)
    ensures Reach(GraphOf(s), roots) <= LiveSlots(s)
  {
  }

  lemma SweptLeavesKept(s: Slots, s': Slots, kept: set<Handle>)
    requires Swept(s, s', kept) && kept <= LiveSlots(s)
    ensures LiveSlots(s') == kept
  {
  }
}
