/** The incremental collector as an object, following the functions of `GcTriColor`. */
module GcIncremental {
  import opened ByteStrings
  import opened Options
  import opened GcGraph
  import opened GcTriColor

  class IncrementalGc {
    var objects: seq<Option<TriObject>>
    var freeList: seq<Handle>
    var roots: seq<Handle>
    var worklist: seq<Handle>
    var gcInProgress: bool
    var cycles: nat
    var totalFreed: nat
    var barrierFires: nat
    var barrierChecks: nat

    ghost function View(): Gc
      reads this
    {
      Gc(objects, freeList, roots, worklist, gcInProgress, cycles, totalFreed, barrierFires, barrierChecks)
    }

    /** In every reachable state the free list is exactly the empty slots, each once; in
        mid-cycle the tri-colour invariant holds too. */
    ghost predicate Valid()
      reads this
    {
      FreeListOk(View()) && (gcInProgress ==> CycleInvariant(View()))
    }

    constructor ()
      ensures Valid() && View() == EMPTY
    {
      objects, freeList, roots, worklist := [], [], [], [];
      gcInProgress := false;
      cycles, totalFreed, barrierFires, barrierChecks := 0, 0, 0, 0;
    }

    method Allocate(value: GcValue) returns (handle: Handle)
      requires Valid()
      modifies this
      ensures Valid()
      ensures (View(), handle) == Alloc(old(View()), value)
      ensures handle == if old(freeList) == [] then |old(objects)| else old(freeList)[|old(freeList)| - 1]
      ensures freeList == if old(freeList) == [] then [] else old(freeList)[..|old(freeList)| - 1]
      ensures var slots := old(SlotsOf(View()));
              SlotsOf(View()) == if handle < |slots| then slots[handle := Some(value)] else slots + [Some(value)]
      ensures roots == old(roots)
    {
      AllocDoes(View(), value);
      AllocSlots(View(), value);
      if gcInProgress { AllocKeeps(View(), value); }
      var color := if gcInProgress then Grey else White;
      var obj := Some(TriObject(value, color));
      if freeList != [] {
        handle := freeList[|freeList| - 1];
        assert handle in freeList;
        freeList := freeList[..|freeList| - 1];
        objects := objects[handle := obj];
      } else {
        handle := |objects|;
        objects := objects + [obj];
      }
      if gcInProgress {
        worklist := worklist + [handle];
      }
    }

    /** A root added in mid-cycle is not shaded, so the invariant survives exactly when
        the object is not a live white one. */
    method AddRoot(h: Handle)
      requires Valid()
      modifies this`roots
      ensures View() == GcTriColor.AddRoot(old(View()), h)
      ensures roots == if h in old(roots) then old(roots) else old(roots) + [h]
      ensures Valid() <==> !(gcInProgress && HasColor(old(View()), h, White))
    {
      OnlyObjectsMatter(View(), GcTriColor.AddRoot(View(), h));
      if gcInProgress { AddRootKeepsExactly(View(), h); }
      if h !in roots {
        roots := roots + [h];
      }
    }

    method RemoveRoot(h: Handle)
      requires Valid()
      modifies this`roots
      ensures Valid() && View() == GcTriColor.RemoveRoot(old(View()), h)
      ensures forall x :: x in roots <==> x in old(roots) && x != h
    {
      hide FreeListOk, CycleInvariant;
      OnlyObjectsMatter(View(), GcTriColor.RemoveRoot(View(), h));
      if gcInProgress { RemoveRootKeeps(View(), h); }
      ghost var g := View();
      var kept: seq<Handle> := [];
      for i := 0 to |roots|
        invariant View() == g
        invariant kept == Without(roots[..i], h)
      {
        assert roots[..i + 1] == roots[..i] + [roots[i]];
        WithoutSnoc(roots[..i], roots[i], h);
        if roots[i] != h {
          kept := kept + [roots[i]];
        }
      }
      assert roots[..|roots|] == roots;
      roots := kept;
      assert View() == GcTriColor.RemoveRoot(g, h);
    }

    method WriteRef(from: Handle, to: Handle)
      requires Valid()
      modifies this
      ensures Valid() && View() == GcTriColor.WriteRef(old(View()), from, to)
      ensures var slots := old(SlotsOf(View()));
              SlotsOf(View()) == if from < |slots| && slots[from].Some? && to !in slots[from].value.refs
                                 then slots[from := Some(slots[from].value.(refs := slots[from].value.refs + [to]))] else slots
      ensures roots == old(roots) && freeList == old(freeList)
    {
      hide CycleInvariant, FreeListOk;
      WriteRefSlots(View(), from, to);
      if gcInProgress { WriteRefKeeps(View(), from, to); }
      StoreRefFree(View(), from, to);
      if from < |objects| && objects[from].Some? && to !in objects[from].value.value.refs {
        var obj := objects[from].value;
        objects := objects[from := Some(obj.(value := obj.value.(refs := obj.value.refs + [to])))];
      }
      if !gcInProgress {
        return;
      }
      barrierChecks := barrierChecks + 1;
      var fromBlack := from < |objects| && objects[from].Some? && objects[from].value.color == Black;
      var toWhite := to < |objects| && objects[to].Some? && objects[to].value.color == White;
      if fromBlack && toWhite {
        objects := objects[to := Some(objects[to].value.(color := Grey))];
        if to !in worklist {
          worklist := worklist + [to];
        }
        barrierFires := barrierFires + 1;
      }
    }

    lemma StoreRefFree(g: Gc, from: Handle, to: Handle)
      requires FreeListOk(g)
      ensures FreeListOk(StoreRef(g, from, to))
      ensures CycleInvariant(GcTriColor.WriteRef(g, from, to)) ==> FreeListOk(GcTriColor.WriteRef(g, from, to))
    {
      StoreRefDoes(g, from, to);
      assert forall h :: h in LiveSlots(SlotsOf(StoreRef(g, from, to))) <==> IsLive(StoreRef(g, from, to), h);
      assert forall h :: h in LiveSlots(SlotsOf(g)) <==> IsLive(g, h);
      assert LiveSlots(SlotsOf(StoreRef(g, from, to))) == LiveSlots(SlotsOf(g));
    }

    /** Begin a cycle: whiten everything, then shade the roots. */
    method Begin()
      requires FreeListOk(View())
      modifies this
      ensures View() == GcTriColor.Begin(old(View()))
      ensures Valid() && gcInProgress
    {
      hide FreeListOk, CycleInvariant, HasColor;
      BeginEstablishes(View());
      ghost var g := View();
      gcInProgress := true;
      for i := 0 to |objects|
        invariant |objects| == |g.objects|
        invariant forall h :: 0 <= h < |objects| ==> objects[h] == if h < i then Whitened(g.objects)[h] else g.objects[h]
        invariant View() == g.(inProgress := true, objects := objects)
      {
        if objects[i].Some? {
          objects := objects[i := Some(objects[i].value.(color := White))];
        }
      }
      worklist := [];
      ghost var g0 := View();
      assert g0.objects == Whitened(g.objects);
      for i := 0 to |roots|
        invariant roots == g.roots
        invariant ShadeAll(g0, g.roots) == ShadeAll(View(), g.roots[i..])
      {
        ShadeGrey(roots[i]);
      }
    }

    /** Process at most `n` grey objects; says how many are left. */
    method Step(n: nat) returns (remaining: nat)
      requires Valid()
      modifies this
      ensures View() == Steps(old(View()), n) && remaining == |worklist|
      ensures old(gcInProgress) ==> Valid() && gcInProgress
    {
      hide FreeListOk, CycleInvariant;
      ghost var g := View();
      if gcInProgress { StepsKeep(g, n); }
      var left: nat := n;
      while left > 0
        invariant left <= n
        invariant Steps(g, n) == Steps(View(), left)
      {
        if worklist == [] { break; }
        ScanLast();
        left := left - 1;
      }
      assert View() == Steps(g, n);
      remaining := |worklist|;
    }

    /** Scan the references of the last grey object and blacken it. */
    method ScanLast()
      requires worklist != []
      modifies this`objects, this`worklist
      ensures View() == Scan(old(View()))
    {
      var handle := worklist[|worklist| - 1];
      worklist := worklist[..|worklist| - 1];
      var refs := if handle < |objects| && objects[handle].Some? then objects[handle].value.value.refs else [];
      ghost var g1 := View();
      for i := 0 to |refs|
        invariant ShadeAll(g1, refs) == ShadeAll(View(), refs[i..])
      {
        ShadeGrey(refs[i]);
      }
      if handle < |objects| && objects[handle].Some? {
        objects := objects[handle := Some(objects[handle].value.(color := Black))];
      }
    }

    /** Sweep all white objects. The worklist must be empty. */
    method Finish() returns (freed: nat)
      requires Valid() && worklist == []
      modifies this
      ensures View() == GcTriColor.Finish(old(View())) && Valid()
      ensures freed == |freeList| - |old(freeList)|
    {
      hide FreeListOk, CycleInvariant;
      FinishDoes(View());
      freed := Sweep();
      gcInProgress := false;
      cycles := cycles + 1;
      totalFreed := totalFreed + freed;
    }

    method Sweep() returns (freed: nat)
      modifies this`objects, this`freeList
      ensures objects == WithoutWhite(old(objects))
      ensures var list := Freed(LiveSlots(SlotsOf(old(View()))), NonWhite(old(View())), |old(objects)|);
              freeList == old(freeList) + list && freed == |list|
    {
      hide LiveSlots, SlotsOf, NonWhite, Freed;
      ghost var g := View();
      ghost var live, kept := LiveSlots(SlotsOf(g)), NonWhite(g);
      freed := 0;
      NothingFreed(live, kept);
      for i := 0 to |objects|
        invariant |objects| == |g.objects|
        invariant forall h :: 0 <= h < |objects| ==> objects[h] == if h < i then WithoutWhite(g.objects)[h] else g.objects[h]
        invariant freeList == g.freeList + Freed(live, kept, i) && freed == |Freed(live, kept, i)|
      {
        SlotSwept(g, i);
        if objects[i].Some? && objects[i].value.color == White {
          objects := objects[i := None];
          freeList := freeList + [i];
          freed := freed + 1;
        }
      }
    }

    /** A full cycle in one go frees exactly the unreachable objects. */
    method CollectAll() returns (freed: nat)
      requires Valid()
      modifies this
      ensures Valid() && !gcInProgress && roots == old(roots)
      ensures Collected(old(SlotsOf(View())), old(freeList), old(roots), SlotsOf(View()), freeList)
      ensures freed == |freeList| - |old(freeList)|
    {
      ghost var g := View();
      BeginEstablishes(g);
      BeginShadesReachable(g);
      Begin();
      while true
        invariant Valid() && gcInProgress
        invariant SlotsOf(View()) == SlotsOf(g) && roots == g.roots && freeList == g.freeList
        invariant NonWhite(View()) <= Reached(View())
        decreases |NonBlack(View())|, |worklist|
      {
        StepsDrain(View(), 256);
        StepsKeep(View(), 256);
        ghost var before := View();
        var remaining := Step(256);
        if remaining == 0 {
          break;
        }
        assert before.worklist != [];
      }
      DrainedSparesReachable(View());
      FinishDoes(View());
      freed := Finish();
    }

    method ShadeGrey(handle: Handle)
      modifies this`objects, this`worklist
      ensures View() == Shade(old(View()), handle)
    {
      if handle < |objects| && objects[handle].Some? && objects[handle].value.color == White {
        objects := objects[handle := Some(objects[handle].value.(color := Grey))];
        if handle !in worklist {
          worklist := worklist + [handle];
        }
      }
    }
  }

  lemma NothingFreed(live: set<Handle>, kept: set<Handle>)
    ensures Freed(live, kept, 0) == []
  {
  }

  /** Sweeping reaches slot `i`. */
  lemma SlotSwept(g: Gc, i: nat)
    requires i < |g.objects|
    ensures var live, kept := LiveSlots(SlotsOf(g)), NonWhite(g);
            Freed(live, kept, i + 1) == Freed(live, kept, i) + if g.objects[i].Some? && g.objects[i].value.color == White then [i] else []
  {
    assert i in LiveSlots(SlotsOf(g)) <==> g.objects[i].Some?;
  }
}
