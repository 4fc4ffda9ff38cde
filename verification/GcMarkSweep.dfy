/** Stop-the-world mark-sweep collection. */
module GcMarkSweep {
  import opened ByteStrings
  import opened Options
  import opened GcGraph

  datatype GcObject = GcObject(value: GcValue, marked: bool)

  datatype GcStats = GcStats(objectsBefore: nat, objectsAfter: nat, freed: nat, collections: nat)

  function SlotsOf(objects: seq<Option<GcObject>>): (s: Slots)
    ensures |s| == |objects|
    ensures forall h :: 0 <= h < |s| ==> s[h] == if objects[h].Some? then Some(objects[h].value.value) else None
  {
    seq(|objects|, h requires 0 <= h < |objects| => if objects[h].Some? then Some(objects[h].value.value) else None)
  }

  ghost function Marked(objects: seq<Option<GcObject>>): set<Handle> {
    set h | 0 <= h < |objects| && objects[h].Some? && objects[h].value.marked
  }

  ghost function Unmarked(objects: seq<Option<GcObject>>): set<Handle> {
    set h | 0 <= h < |objects| && objects[h].Some? && !objects[h].value.marked
  }

  /** The marked objects so far lead to marked objects or to the worklist. */
  ghost predicate MarkingInvariant(g: Graph, marked: set<Handle>, worklist: seq<Handle>) {
    forall h, r :: h in marked && h in g && r in g[h] && r in g ==> r in marked || r in worklist
  }

  lemma MarkedMore(objects: seq<Option<GcObject>>, h: Handle)
    requires h < |objects| && objects[h].Some? && !objects[h].value.marked
    ensures var objects' := objects[h := Some(objects[h].value.(marked := true))];
            && SlotsOf(objects') == SlotsOf(objects)
            && Marked(objects') == Marked(objects) + {h}
            && Unmarked(objects') == Unmarked(objects) - {h} && h in Unmarked(objects)
            && h in GraphOf(SlotsOf(objects)) && GraphOf(SlotsOf(objects))[h] == objects[h].value.value.refs
  {
  }

  lemma NothingToMark(objects: seq<Option<GcObject>>, h: Handle)
    requires h < |objects| && objects[h].Some? ==> objects[h].value.marked
    ensures h in GraphOf(SlotsOf(objects)) ==> h in Marked(objects)
  {
  }

  /** Handling the last handle of the worklist keeps the invariant. */
  lemma MarkingStep(g: Graph, marked: set<Handle>, worklist: seq<Handle>, h: Handle)
    requires MarkingInvariant(g, marked, worklist + [h])
    ensures h in g ==> MarkingInvariant(g, marked + {h}, worklist + g[h])
    ensures h in marked || h !in g ==> MarkingInvariant(g, marked, worklist)
  {
  }

  /** Marking from a root: the worklist leads to reachable objects only. */
  lemma MarkingStarts(g: Graph, marked: set<Handle>, start: Handle)
    requires MarkingInvariant(g, marked, [])
    ensures MarkingInvariant(g, marked, [start])
  {
  }

  /** What an object refers to is as reachable as the object. */
  lemma RefsReachable(g: Graph, roots: seq<Handle>, h: Handle)
    requires h in g && h in Reach(g, roots)
    ensures forall r :: r in g[h] && r in g ==> r in Reach(g, roots)
  {
    ReachIsLeastClosed(g, roots);
  }

  lemma MarkingDone(g: Graph, roots: seq<Handle>, marked: set<Handle>)
    requires MarkingInvariant(g, marked, []) && marked <= Reach(g, roots)
    requires forall j :: 0 <= j < |roots| && roots[j] in g ==> roots[j] in marked
    ensures marked == Reach(g, roots)
  {
    assert Closed(g, roots, marked);
    ReachIsLeastClosed(g, roots);
  }

  class Heap {
    var objects: seq<Option<GcObject>>
    var freeList: seq<Handle>
    var roots: seq<Handle>
    var stats: GcStats

    ghost function View(): Slots
      reads this
    {
      SlotsOf(objects)
    }

    /** Between calls nothing is marked and the free list is the empty slots. */
    ghost predicate Valid()
      reads this
    {
      && Marked(objects) == {}
      && ListsFreeSlots(freeList, LiveSlots(View()), |objects|)
    }

    constructor ()
      ensures Valid() && View() == [] && roots == [] && freeList == []
    {
      objects, freeList, roots := [], [], [];
      stats := GcStats(0, 0, 0, 0);
    }

    /** Reuses the slot freed last, or grows the heap. */
    method Alloc(value: GcValue) returns (handle: Handle)
      requires Valid()
      modifies this`objects, this`freeList
      ensures Valid()
      ensures handle !in LiveSlots(old(View()))
      ensures View() == if handle < |old(objects)| then old(View())[handle := Some(value)] else old(View()) + [Some(value)]
      ensures handle == if old(freeList) == [] then |old(objects)| else old(freeList)[|old(freeList)| - 1]
      ensures freeList == if old(freeList) == [] then [] else old(freeList)[..|old(freeList)| - 1]
    {
      var obj := Some(GcObject(value, false));
      ghost var live := LiveSlots(View());
      SlotTaken(freeList, live, |objects|);
      hide ListsFreeSlots;
      if freeList != [] {
        handle := freeList[|freeList| - 1];
        freeList := freeList[..|freeList| - 1];
        objects := objects[handle := obj];
      } else {
        handle := |objects|;
        objects := objects + [obj];
      }
      assert LiveSlots(View()) == live + {handle};
    }

    method AddRoot(handle: Handle)
      modifies this`roots
      ensures roots == if handle in old(roots) then old(roots) else old(roots) + [handle]
    {
      if handle !in roots {
        roots := roots + [handle];
      }
    }

    method AddRef(from: Handle, to: Handle)
      requires Valid()
      modifies this`objects
      ensures Valid() && LiveSlots(View()) == LiveSlots(old(View()))
      ensures View() == var s := old(View());
                        if from in LiveSlots(s) && to !in s[from].value.refs
                        then s[from := Some(s[from].value.(refs := s[from].value.refs + [to]))] else s
    {
      if from < |objects| && objects[from].Some? && to !in objects[from].value.value.refs {
        var obj := objects[from].value;
        objects := objects[from := Some(obj.(value := obj.value.(refs := obj.value.refs + [to])))];
      }
      assert LiveSlots(View()) == LiveSlots(old(View()));
    }

    /** Frees exactly the unreachable objects. */
    method Collect()
      requires Valid()
      modifies this
      ensures Valid() && roots == old(roots)
      ensures var kept := Reach(GraphOf(old(View())), old(roots));
              && Swept(old(View()), View(), kept)
              && freeList == old(freeList) + Freed(LiveSlots(old(View())), kept, |old(objects)|)
              && stats == GcStats(|LiveSlots(old(View()))|, |kept|,
                                  old(stats.freed) + |freeList| - |old(freeList)|, old(stats.collections) + 1)
    {
      hide SlotsOf, Marked, Reach, GraphOf, ListsFreeSlots, Freed, Swept;
      ghost var slots, free := View(), freeList;
      ghost var kept := Reach(GraphOf(slots), roots);
      var before := LiveCount();
      MarkRoots();
      ReachIsLive(slots, roots);
      FreedKeepsList(free, LiveSlots(slots), kept, |objects|);
      var freed := Sweep();
      SweptLeavesKept(slots, View(), kept);
      var after := LiveCount();
      stats := GcStats(before, after, stats.freed + freed, stats.collections + 1);
    }

    method LiveCount() returns (n: nat)
      ensures n == |LiveSlots(View())|
    {
      n := 0;
      ghost var seen: set<Handle> := {};
      for i := 0 to |objects|
        invariant seen == set h | h in LiveSlots(View()) && h < i
        invariant n == |seen|
      {
        assert i in LiveSlots(View()) <==> objects[i].Some?;
        if objects[i].Some? {
          n := n + 1;
          seen := seen + {i};
        }
      }
      assert seen == LiveSlots(View());
    }

    /** The mark phase: afterwards exactly the reachable objects are marked. */
    method MarkRoots()
      requires Marked(objects) == {}
      modifies this`objects
      ensures View() == old(View())
      ensures Marked(objects) == Reach(GraphOf(View()), roots)
    {
      hide SlotsOf, Marked, Unmarked, MarkingInvariant, Reach, GraphOf, Closed;
      ghost var graph := GraphOf(View());
      NothingMarked();
      for i := 0 to |roots|
        invariant View() == old(View())
        invariant Marked(objects) <= Reach(graph, roots)
        invariant MarkingInvariant(graph, Marked(objects), [])
        invariant forall j :: 0 <= j < i && roots[j] in graph ==> roots[j] in Marked(objects)
      {
        if roots[i] in graph { RootReachable(graph, roots, roots[i]); }
        Mark(roots[i]);
      }
      MarkingDone(graph, roots, Marked(objects));
    }

    lemma NothingMarked()
      requires Marked(objects) == {}
      ensures MarkingInvariant(GraphOf(View()), Marked(objects), [])
      ensures Marked(objects) <= Reach(GraphOf(View()), roots)
    {
    }

    /** Marks what can be reached from `start`, given that what is marked already is
        closed. */
    method Mark(start: Handle)
      requires MarkingInvariant(GraphOf(View()), Marked(objects), [])
      requires start in GraphOf(View()) ==> start in Reach(GraphOf(View()), roots)
      requires Marked(objects) <= Reach(GraphOf(View()), roots)
      modifies this`objects
      ensures View() == old(View())
      ensures Marked(old(objects)) <= Marked(objects) <= Reach(GraphOf(View()), roots)
      ensures MarkingInvariant(GraphOf(View()), Marked(objects), [])
      ensures start in GraphOf(View()) ==> start in Marked(objects)
    {
      hide SlotsOf, Marked, Unmarked, MarkingInvariant, Reach, GraphOf, Closed;
      var worklist: seq<Handle> := [start];
      ghost var graph := GraphOf(View());
      MarkingStarts(graph, Marked(objects), start);
      while worklist != []
        invariant View() == old(View())
        invariant Marked(old(objects)) <= Marked(objects) <= Reach(graph, roots)
        invariant MarkingInvariant(graph, Marked(objects), worklist)
        invariant forall h :: h in worklist && h in graph ==> h in Reach(graph, roots)
        invariant start in graph ==> start in Marked(objects) || start in worklist
        decreases Unmarked(objects), |worklist|
      {
        var handle := worklist[|worklist| - 1];
        assert worklist == worklist[..|worklist| - 1] + [handle];
        worklist := worklist[..|worklist| - 1];
        MarkingStep(graph, Marked(objects), worklist, handle);
        if handle < |objects| && objects[handle].Some? && !objects[handle].value.marked {
          MarkedMore(objects, handle);
          RefsReachable(graph, roots, handle);
          objects := objects[handle := Some(objects[handle].value.(marked := true))];
          worklist := worklist + objects[handle].value.value.refs;
        } else {
          NothingToMark(objects, handle);
        }
      }
    }

    /** Frees every unmarked object and clears the marks of the others. */
    method Sweep() returns (freed: nat)
      modifies this`objects, this`freeList
      ensures Swept(old(View()), View(), Marked(old(objects))) && Marked(objects) == {}
      ensures var list := Freed(LiveSlots(old(View())), Marked(old(objects)), |old(objects)|);
              freeList == old(freeList) + list && freed == |list|
    {
      ghost var live, kept := LiveSlots(View()), Marked(objects);
      freed := 0;
      for i := 0 to |objects|
        invariant |objects| == |old(objects)|
        invariant forall h :: i <= h < |objects| ==> objects[h] == old(objects)[h]
        invariant forall h :: 0 <= h < i ==>
                    objects[h] == if h in kept then Some(old(objects)[h].value.(marked := false)) else None
        invariant freeList == old(freeList) + Freed(live, kept, i) && freed == |Freed(live, kept, i)|
      {
        assert i in live <==> objects[i].Some?;
        if objects[i].Some? {
          if !objects[i].value.marked {
            objects := objects[i := None];
            freeList := freeList + [i];
            freed := freed + 1;
          } else {
            objects := objects[i := Some(objects[i].value.(marked := false))];
          }
        }
      }
    }
  }
}
