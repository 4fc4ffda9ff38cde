/** The two collectors side by side. */
module GcAgreement {
  import opened ByteStrings
  import opened Options
  import opened GcGraph
  import MarkSweep = GcMarkSweep
  import Tri = GcTriColor
  import Incremental = GcIncremental

  /** On the same heap with the same roots, stop-the-world and incremental collection free
      the same objects in the same order and leave the same heap behind. */
  method CollectBoth(heap: MarkSweep.Heap, gc: Incremental.IncrementalGc)
    requires heap.Valid() && gc.Valid()
    requires Tri.SlotsOf(gc.View()) == heap.View() && gc.roots == heap.roots && gc.freeList == heap.freeList
    modifies heap, gc
    ensures heap.Valid() && gc.Valid()
    ensures Tri.SlotsOf(gc.View()) == heap.View() && gc.roots == heap.roots && gc.freeList == heap.freeList
    ensures LiveSlots(heap.View()) == Reach(GraphOf(old(heap.View())), heap.roots)
  {
    ReachIsLive(heap.View(), heap.roots);
    SweptSame(heap.View(), Reach(GraphOf(heap.View()), heap.roots));
    hide Swept, Freed, Tri.CycleInvariant, Tri.FreeListOk, Reach, Tri.SlotsOf, MarkSweep.SlotsOf, LiveSlots;
    heap.Collect();
    var freed := gc.CollectAll();
  }

  lemma SweptSame(s: Slots, kept: set<Handle>)
    requires kept <= LiveSlots(s)
    ensures forall t, u :: Swept(s, t, kept) && Swept(s, u, kept) ==> t == u
    ensures forall t :: Swept(s, t, kept) ==> LiveSlots(t) == kept
  {
    forall t | Swept(s, t, kept) ensures LiveSlots(t) == kept {
      SweptLeavesKept(s, t, kept);
    }
  }
}
