/** Tri-colour incremental collection, as functions on heap states.

    Between `Begin` and `Finish` the mutator's actions and the collector's steps may come
    in any order. `CycleInvariant` is what every one of them keeps. */
module GcTriColor {
  import opened ByteStrings
  import opened Options
  import opened GcGraph

  datatype Color = White | Grey | Black

  datatype TriObject = TriObject(value: GcValue, color: Color)

  datatype Gc = Gc(
    objects: seq<Option<TriObject>>, freeList: seq<Handle>, roots: seq<Handle>, worklist: seq<Handle>,
    inProgress: bool, cycles: nat, totalFreed: nat, barrierFires: nat, barrierChecks: nat)

  const EMPTY: Gc := Gc([], [], [], [], false, 0, 0, 0, 0)

  predicate IsLive(g: Gc, h: Handle) {
    h < |g.objects| && g.objects[h].Some?
  }

  predicate HasColor(g: Gc, h: Handle, c: Color) {
    IsLive(g, h) && g.objects[h].value.color == c
  }

  function Recolored(g: Gc, h: Handle, c: Color): Gc
    requires IsLive(g, h)
  {
    g.(objects := g.objects[h := Some(g.objects[h].value.(color := c))])
  }

  function RefsOf(g: Gc, h: Handle): seq<Handle> {
    if IsLive(g, h) then g.objects[h].value.value.refs else []
  }

  function SlotsOf(g: Gc): (s: Slots)
    ensures |s| == |g.objects|
    ensures forall h :: 0 <= h < |s| ==> s[h] == if g.objects[h].Some? then Some(g.objects[h].value.value) else None
  {
    seq(|g.objects|, h requires 0 <= h < |g.objects| => if g.objects[h].Some? then Some(g.objects[h].value.value) else None)
  }

  // ---- The mutator ----

  function Alloc(g: Gc, value: GcValue): (Gc, Handle)
    requires FreeListOk(g)
  {
    var color := if g.inProgress then Grey else White;
    var obj := Some(TriObject(value, color));
    var handle := if g.freeList != [] then g.freeList[|g.freeList| - 1] else |g.objects|;
    assert g.freeList != [] ==> handle in g.freeList;
    var g1 := if g.freeList != []
              then g.(freeList := g.freeList[..|g.freeList| - 1], objects := g.objects[handle := obj])
              else g.(objects := g.objects + [obj]);
    (if g.inProgress then g1.(worklist := g1.worklist + [handle]) else g1, handle)
  }

  function AddRoot(g: Gc, h: Handle): Gc {
    if h in g.roots then g else g.(roots := g.roots + [h])
  }

  function Without(s: seq<Handle>, h: Handle): (r: seq<Handle>)
    ensures forall x :: x in r <==> x in s && x != h
  {
    if s == [] then []
    else if s[0] == h then Without(s[1..], h)
    else [s[0]] + Without(s[1..], h)
  }

  lemma {:induction false} WithoutSnoc(s: seq<Handle>, x: Handle, h: Handle)
    ensures Without(s + [x], h) == Without(s, h) + (if x == h then [] else [x])
  {
    if s == [] {
      assert [x][1..] == [];
    } else {
      assert (s + [x])[1..] == s[1..] + [x];
      WithoutSnoc(s[1..], x, h);
    }
  }

  function RemoveRoot(g: Gc, h: Handle): Gc {
    g.(roots := Without(g.roots, h))
  }

  /** Store a reference without telling the collector. */
  function StoreRef(g: Gc, from: Handle, to: Handle): Gc {
    if IsLive(g, from) && to !in g.objects[from].value.value.refs then
      var o := g.objects[from].value;
      g.(objects := g.objects[from := Some(o.(value := o.value.(refs := o.value.refs + [to])))])
    else g
  }

  /** The write barrier: shade the target of a store from black to white. */
  function Barrier(g: Gc, from: Handle, to: Handle): Gc {
    if !g.inProgress then g
    else
      var g1 := g.(barrierChecks := g.barrierChecks + 1);
      if HasColor(g1, from, Black) && HasColor(g1, to, White) then
        var g2 := Recolored(g1, to, Grey);
        var g3 := if to in g2.worklist then g2 else g2.(worklist := g2.worklist + [to]);
        g3.(barrierFires := g3.barrierFires + 1)
      else g1
  }

  function WriteRef(g: Gc, from: Handle, to: Handle): Gc {
    Barrier(StoreRef(g, from, to), from, to)
  }

  // ---- The collector ----

  function Shade(g: Gc, h: Handle): Gc {
    if HasColor(g, h, White) then
      var g1 := Recolored(g, h, Grey);
      if h in g1.worklist then g1 else g1.(worklist := g1.worklist + [h])
    else g
  }

  function ShadeAll(g: Gc, hs: seq<Handle>): Gc
    decreases |hs|
  {
    if hs == [] then g else ShadeAll(Shade(g, hs[0]), hs[1..])
  }

  function Whitened(objects: seq<Option<TriObject>>): (r: seq<Option<TriObject>>)
    ensures |r| == |objects|
    ensures forall h :: 0 <= h < |r| ==> r[h] == if objects[h].Some? then Some(objects[h].value.(color := White)) else None
  {
    seq(|objects|, h requires 0 <= h < |objects| => if objects[h].Some? then Some(objects[h].value.(color := White)) else None)
  }

  function Begin(g: Gc): Gc {
    ShadeAll(g.(inProgress := true, objects := Whitened(g.objects), worklist := []), g.roots)
  }

  /** Take the last grey object, shade what it refers to, and blacken it. */
  function Scan(g: Gc): Gc
    requires g.worklist != []
  {
    var h := g.worklist[|g.worklist| - 1];
    var g1 := ShadeAll(g.(worklist := g.worklist[..|g.worklist| - 1]), RefsOf(g, h));
    if IsLive(g1, h) then Recolored(g1, h, Black) else g1
  }

  function Steps(g: Gc, n: nat): Gc
    decreases n
  {
    if n == 0 || g.worklist == [] then g else Steps(Scan(g), n - 1)
  }

  /** The objects that a sweep spares. */
  ghost function NonWhite(g: Gc): set<Handle> {
    set h | 0 <= h < |g.objects| && g.objects[h].Some? && !g.objects[h].value.color.White?
  }

  function WithoutWhite(objects: seq<Option<TriObject>>): (r: seq<Option<TriObject>>)
    ensures |r| == |objects|
    ensures forall h :: 0 <= h < |r| ==> r[h] == if objects[h].Some? && objects[h].value.color.White? then None else objects[h]
  {
    seq(|objects|, h requires 0 <= h < |objects| => if objects[h].Some? && objects[h].value.color.White? then None else objects[h])
  }

  /** Sweep: free every white object. */
  ghost function Finish(g: Gc): Gc {
    var freed := Freed(LiveSlots(SlotsOf(g)), NonWhite(g), |g.objects|);
    g.(objects := WithoutWhite(g.objects), freeList := g.freeList + freed, inProgress := false,
       cycles := g.cycles + 1, totalFreed := g.totalFreed + |freed|)
  }

  // ---- What every state keeps ----

  ghost predicate FreeListOk(g: Gc) {
    ListsFreeSlots(g.freeList, LiveSlots(SlotsOf(g)), |g.objects|)
  }

  /** The worklist holds every grey object but `scanning`, each once, and nothing else. */
  ghost predicate Queued(g: Gc, scanning: Option<Handle>) {
    && (forall h :: h in g.worklist <==> HasColor(g, h, Grey) && scanning != Some(h))
    && (forall i, j :: 0 <= i < j < |g.worklist| ==> g.worklist[i] != g.worklist[j])
  }

  /** No black object refers to a live white one. */
  ghost predicate StrongTriColor(g: Gc) {
    forall h, r :: HasColor(g, h, Black) && r in RefsOf(g, h) ==> !HasColor(g, r, White)
  }

  ghost predicate RootsShaded(g: Gc) {
    forall h :: h in g.roots ==> !HasColor(g, h, White)
  }

  ghost predicate CycleInvariant(g: Gc) {
    && g.inProgress && FreeListOk(g) && Queued(g, None) && StrongTriColor(g) && RootsShaded(g)
  }

  // ---- Shading ----

  /** `g'` is `g` with the white ones among `hs` shaded. */
  ghost predicate Shaded(g: Gc, g': Gc, hs: seq<Handle>) {
    && g' == g.(objects := g'.objects, worklist := g'.worklist)
    && |g'.objects| == |g.objects|
    && forall h :: 0 <= h < |g.objects| ==>
         g'.objects[h] == if HasColor(g, h, White) && h in hs
                          then Some(g.objects[h].value.(color := Grey)) else g.objects[h]
  }

  lemma {:induction false} ShadeAllShades(g: Gc, hs: seq<Handle>, scanning: Option<Handle>)
    requires Queued(g, scanning) && (scanning.Some? ==> !HasColor(g, scanning.value, White))
    ensures Shaded(g, ShadeAll(g, hs), hs) && Queued(ShadeAll(g, hs), scanning)
    decreases |hs|
  {
    if hs != [] {
      var g1 := Shade(g, hs[0]);
      assert Queued(g1, scanning);
      ShadeAllShades(g1, hs[1..], scanning);
      assert hs == [hs[0]] + hs[1..];
    }
  }

  lemma ShadedSlots(g: Gc, g': Gc, hs: seq<Handle>)
    requires Shaded(g, g', hs)
    ensures SlotsOf(g') == SlotsOf(g)
  {
  }

  // ---- Beginning ----

  lemma {:induction false} BeginEstablishes(g: Gc)
    requires FreeListOk(g)
    ensures CycleInvariant(Begin(g)) && SlotsOf(Begin(g)) == SlotsOf(g) && Begin(g).roots == g.roots
    ensures forall h :: !HasColor(Begin(g), h, Black)
    ensures forall h :: HasColor(Begin(g), h, Grey) <==> h in g.roots && IsLive(g, h)
    ensures Begin(g).freeList == g.freeList
  {
    var g0 := g.(inProgress := true, objects := Whitened(g.objects), worklist := []);
    assert SlotsOf(g0) == SlotsOf(g);
    ShadeAllShades(g0, g.roots, None);
    ShadedSlots(g0, Begin(g), g.roots);
  }

  // ---- Scanning ----

  lemma LastTaken(g: Gc)
    requires Queued(g, None) && g.worklist != []
    ensures var h := g.worklist[|g.worklist| - 1];
            HasColor(g, h, Grey) && Queued(g.(worklist := g.worklist[..|g.worklist| - 1]), Some(h))
  {
    hide HasColor;
    var g0 := g.(worklist := g.worklist[..|g.worklist| - 1]);
    assert g.worklist[|g.worklist| - 1] in g.worklist;
    LastOnce(g.worklist);
    OnlyObjectsMatter(g, g0);
  }

  /** What scanning does to each object. */
  lemma {:induction false} ScanObjects(g: Gc)
    requires CycleInvariant(g) && g.worklist != []
    ensures var h, g' := g.worklist[|g.worklist| - 1], Scan(g);
            && HasColor(g, h, Grey)
            && g' == g.(objects := g'.objects, worklist := g'.worklist)
            && Queued(g', None)
            && |g'.objects| == |g.objects|
            && forall x :: 0 <= x < |g.objects| ==>
                 g'.objects[x] ==
                 if x == h then Some(g.objects[h].value.(color := Black))
                 else if HasColor(g, x, White) && x in RefsOf(g, h) then Some(g.objects[x].value.(color := Grey))
                 else g.objects[x]
  {
    var h := g.worklist[|g.worklist| - 1];
    var g0 := g.(worklist := g.worklist[..|g.worklist| - 1]);
    LastTaken(g);
    ShadeAllShades(g0, RefsOf(g, h), Some(h));
  }

  lemma {:induction false} ScanKeeps(g: Gc)
    requires CycleInvariant(g) && g.worklist != []
    ensures CycleInvariant(Scan(g)) && SlotsOf(Scan(g)) == SlotsOf(g) && Scan(g).roots == g.roots
  {
    ScanObjects(g);
    var h, g' := g.worklist[|g.worklist| - 1], Scan(g);
    hide Scan;
    assert SlotsOf(g') == SlotsOf(g);
    forall x, r | HasColor(g', x, Black) && r in RefsOf(g', x) ensures !HasColor(g', r, White) {
      assert RefsOf(g', x) == RefsOf(g, x);
      assert HasColor(g', r, White) ==> HasColor(g, r, White) && r != h;
      assert x != h ==> HasColor(g, x, Black);
    }
  }

  lemma {:induction false} StepsKeep(g: Gc, n: nat)
    requires CycleInvariant(g)
    ensures CycleInvariant(Steps(g, n)) && SlotsOf(Steps(g, n)) == SlotsOf(g) && Steps(g, n).roots == g.roots
    ensures Steps(g, n).inProgress && FreeListOk(Steps(g, n))
    decreases n
  {
    hide Scan;
    if n > 0 && g.worklist != [] {
      ScanKeeps(g);
      StepsKeep(Scan(g), n - 1);
    }
  }

  // ---- The mutator during a cycle ----

  /** What allocating does, in or out of a cycle. */
  lemma {:induction false} AllocDoes(g: Gc, value: GcValue)
    requires FreeListOk(g)
    ensures var (g', h) := Alloc(g, value);
            && !IsLive(g, h) && HasColor(g', h, if g.inProgress then Grey else White)
            && RefsOf(g', h) == value.refs
            && h <= |g.objects| && |g'.objects| == (if h < |g.objects| then |g.objects| else |g.objects| + 1)
            && (forall x :: 0 <= x < |g.objects| && x != h ==> g'.objects[x] == g.objects[x])
            && g'.worklist == (if g.inProgress then g.worklist + [h] else g.worklist)
            && FreeListOk(g')
  {
    var (g', h) := Alloc(g, value);
    if g.freeList != [] {
      assert h in g.freeList;
      assert g.freeList == g'.freeList + [h];
    }
    assert forall x :: x in LiveSlots(SlotsOf(g')) <==> x in LiveSlots(SlotsOf(g)) || x == h;
  }

  /** What allocating leaves in the slots, whatever the colours. */
  lemma AllocSlots(g: Gc, value: GcValue)
    requires FreeListOk(g)
    ensures var (g', h) := Alloc(g, value); var slots := SlotsOf(g);
            && h == (if g.freeList == [] then |slots| else g.freeList[|g.freeList| - 1])
            && g'.freeList == (if g.freeList == [] then [] else g.freeList[..|g.freeList| - 1])
            && SlotsOf(g') == (if h < |slots| then slots[h := Some(value)] else slots + [Some(value)])
            && g'.roots == g.roots
  {
    var (g', h) := Alloc(g, value);
    var slots := SlotsOf(g);
    if g.freeList != [] {
      assert h in g.freeList;
      assert SlotsOf(g') == slots[h := Some(value)];
    } else {
      assert |g'.objects| == |slots| + 1 && g'.objects[|slots|].Some? && g'.objects[|slots|].value.value == value;
      assert SlotsOf(g') == slots + [Some(value)];
    }
  }

  /** What a store leaves in the slots: one reference more, unless it is there already. */
  lemma WriteRefSlots(g: Gc, from: Handle, to: Handle)
    ensures var g', slots := WriteRef(g, from, to), SlotsOf(g);
            && SlotsOf(g') == (if from < |slots| && slots[from].Some? && to !in slots[from].value.refs
                               then slots[from := Some(slots[from].value.(refs := slots[from].value.refs + [to]))] else slots)
            && g'.roots == g.roots && g'.freeList == g.freeList
  {
    var g1 := StoreRef(g, from, to);
    assert SlotsOf(WriteRef(g, from, to)) == SlotsOf(g1);
    var slots := SlotsOf(g);
    if from < |slots| && slots[from].Some? && to !in slots[from].value.refs {
      assert SlotsOf(g1) == slots[from := Some(slots[from].value.(refs := slots[from].value.refs + [to]))];
    }
  }

  lemma {:induction false} AllocKeeps(g: Gc, value: GcValue)
    requires CycleInvariant(g)
    ensures CycleInvariant(Alloc(g, value).0)
  {
    AllocDoes(g, value);
    var (g', h) := Alloc(g, value);
    hide Alloc;
    assert h !in g.worklist;
    forall x, r | HasColor(g', x, Black) && r in RefsOf(g', x) ensures !HasColor(g', r, White) {
      assert HasColor(g, x, Black) && RefsOf(g', x) == RefsOf(g, x);
      assert HasColor(g', r, White) ==> HasColor(g, r, White);
    }
  }

  /** Storing a reference and the barrier together keep the invariant: the barrier shades
      exactly when the store alone would break it. */
  lemma {:induction false} WriteRefKeeps(g: Gc, from: Handle, to: Handle)
    requires CycleInvariant(g)
    ensures CycleInvariant(WriteRef(g, from, to))
    ensures StrongTriColor(StoreRef(g, from, to)) <==> !(HasColor(g, from, Black) && HasColor(g, to, White))
    ensures WriteRef(g, from, to).barrierFires ==
            g.barrierFires + (if StrongTriColor(StoreRef(g, from, to)) then 0 else 1)
  {
    var g1, g2 := StoreRef(g, from, to), WriteRef(g, from, to);
    StoreRefDoes(g, from, to);
    hide StoreRef;
    assert StrongTriColor(g1) <==> !(HasColor(g, from, Black) && HasColor(g, to, White)) by {
      if HasColor(g, from, Black) && HasColor(g, to, White) {
        assert HasColor(g1, from, Black) && to in RefsOf(g1, from) && HasColor(g1, to, White);
      }
    }
    assert LiveSlots(SlotsOf(g1)) == LiveSlots(SlotsOf(g)) by {
      assert forall h :: h in LiveSlots(SlotsOf(g1)) <==> IsLive(g1, h);
      assert forall h :: h in LiveSlots(SlotsOf(g)) <==> IsLive(g, h);
    }
    assert LiveSlots(SlotsOf(g2)) == LiveSlots(SlotsOf(g1));
    forall x, r | HasColor(g2, x, Black) && r in RefsOf(g2, x) ensures !HasColor(g2, r, White) {
      assert HasColor(g1, x, Black) && RefsOf(g2, x) == RefsOf(g1, x);
      assert HasColor(g2, r, White) ==> HasColor(g1, r, White);
      assert r in RefsOf(g, x) || (x == from && r == to);
    }
  }

  lemma {:induction false} StoreRefDoes(g: Gc, from: Handle, to: Handle)
    ensures var g1 := StoreRef(g, from, to);
            && g1 == g.(objects := g1.objects) && |g1.objects| == |g.objects|
            && (forall h, c :: HasColor(g1, h, c) <==> HasColor(g, h, c))
            && (forall h :: IsLive(g1, h) <==> IsLive(g, h))
            && (forall h, r :: r in RefsOf(g1, h) <==> r in RefsOf(g, h) || (IsLive(g, from) && h == from && r == to))
  {
  }

  lemma OnlyObjectsMatter(g: Gc, g': Gc)
    requires g'.objects == g.objects
    ensures SlotsOf(g') == SlotsOf(g)
    ensures forall h, c :: HasColor(g', h, c) <==> HasColor(g, h, c)
    ensures StrongTriColor(g') <==> StrongTriColor(g)
    ensures g'.freeList == g.freeList ==> (FreeListOk(g') <==> FreeListOk(g))
  {
    assert forall h :: RefsOf(g', h) == RefsOf(g, h);
  }

  lemma RemoveRootKeeps(g: Gc, h: Handle)
    requires CycleInvariant(g)
    ensures CycleInvariant(RemoveRoot(g, h))
  {
    OnlyObjectsMatter(g, RemoveRoot(g, h));
  }

  /** Adding a root in the middle of a cycle is sound exactly when the object is not a
      live white one: `add_root` does not shade. */
  lemma AddRootKeepsExactly(g: Gc, h: Handle)
    requires CycleInvariant(g)
    ensures CycleInvariant(AddRoot(g, h)) <==> !HasColor(g, h, White)
  {
    OnlyObjectsMatter(g, AddRoot(g, h));
    assert h in AddRoot(g, h).roots;
  }

  // ---- Whole cycles ----

  datatype Action =
    | AllocAct(value: GcValue)
    | WriteRefAct(from: Handle, to: Handle)
    | AddRootAct(h: Handle)
    | RemoveRootAct(h: Handle)
    | StepAct(n: nat)

  ghost function Act(g: Gc, a: Action): Gc
    requires FreeListOk(g)
  {
    match a
    case AllocAct(value) => Alloc(g, value).0
    case WriteRefAct(from, to) => WriteRef(g, from, to)
    case AddRootAct(h) => AddRoot(g, h)
    case RemoveRootAct(h) => RemoveRoot(g, h)
    case StepAct(n) => Steps(g, n)
  }

  /** The one thing asked of the mutator: no live white object becomes a root. */
  ghost predicate Allowed(g: Gc, a: Action) {
    a.AddRootAct? ==> !HasColor(g, a.h, White)
  }

  lemma ActKeeps(g: Gc, a: Action)
    requires CycleInvariant(g) && Allowed(g, a)
    ensures CycleInvariant(Act(g, a))
  {
    match a {
      case AllocAct(value) => AllocKeeps(g, value);
      case WriteRefAct(from, to) => WriteRefKeeps(g, from, to);
      case AddRootAct(h) => AddRootKeepsExactly(g, h);
      case RemoveRootAct(h) => RemoveRootKeeps(g, h);
      case StepAct(n) => StepsKeep(g, n);
    }
  }

  /** `g'` comes from `g` by an allowed sequence of actions. */
  ghost predicate Interleaving(g: Gc, actions: seq<Action>, g': Gc)
    decreases |actions|
  {
    if actions == [] then g' == g
    else FreeListOk(g) && Allowed(g, actions[0]) && Interleaving(Act(g, actions[0]), actions[1..], g')
  }

  lemma {:induction false} InterleavingKeeps(g: Gc, actions: seq<Action>, g': Gc)
    requires CycleInvariant(g) && Interleaving(g, actions, g')
    ensures CycleInvariant(g')
    decreases |actions|
  {
    if actions != [] {
      ActKeeps(g, actions[0]);
      InterleavingKeeps(Act(g, actions[0]), actions[1..], g');
    }
  }

  // ---- Finishing ----

  /** With an empty worklist every reachable object is spared. */
  lemma {:induction false} ReachableIsSpared(g: Gc)
    requires CycleInvariant(g) && g.worklist == []
    ensures Reach(GraphOf(SlotsOf(g)), g.roots) <= NonWhite(g)
  {
    var graph := GraphOf(SlotsOf(g));
    forall h, r | h in NonWhite(g) && r in graph[h] && r in graph ensures r in NonWhite(g) {
      assert HasColor(g, h, Grey) ==> h in g.worklist;
      assert HasColor(g, h, Black) && r in RefsOf(g, h);
      assert !HasColor(g, r, White) && IsLive(g, r);
    }
    forall h | h in g.roots && h in graph ensures h in NonWhite(g) {
      assert !HasColor(g, h, White);
    }
    assert Closed(graph, g.roots, NonWhite(g));
    ReachIsLeastClosed(graph, g.roots);
  }

  lemma FinishDoes(g: Gc)
    requires FreeListOk(g)
    ensures Swept(SlotsOf(g), SlotsOf(Finish(g)), NonWhite(g)) && FreeListOk(Finish(g))
    ensures Finish(g).roots == g.roots
    ensures Finish(g).freeList == g.freeList + Freed(LiveSlots(SlotsOf(g)), NonWhite(g), |g.objects|)
  {
    assert LiveSlots(SlotsOf(Finish(g))) == NonWhite(g);
    FreedKeepsList(g.freeList, LiveSlots(SlotsOf(g)), NonWhite(g), |g.objects|);
  }

  /** The safety of a whole cycle: whatever the mutator and the collector do in between,
      in any order, finishing on an empty worklist frees nothing that is reachable, and
      leaves every reachable object as it is. */
  lemma CycleIsSafe(g: Gc, actions: seq<Action>, g': Gc)
    requires FreeListOk(g) && Interleaving(Begin(g), actions, g') && g'.worklist == []
    ensures var graph := GraphOf(SlotsOf(g'));
            && FreeListOk(Finish(g'))
            && forall h :: h in Reach(graph, g'.roots) ==>
                 && h !in Freed(LiveSlots(SlotsOf(g')), NonWhite(g'), |g'.objects|)
                 && 0 <= h < |g'.objects| && SlotsOf(Finish(g'))[h] == SlotsOf(g')[h]
  {
    BeginEstablishes(g);
    InterleavingKeeps(Begin(g), actions, g');
    ReachableIsSpared(g');
    FinishDoes(g');
  }

  // ---- Where the precondition on roots matters ----

  /** A live white object made a root in mid-cycle is freed although it is a root. */
  lemma WhiteRootIsLost()
    ensures exists g, h ::
      && CycleInvariant(g) && g.worklist == [] && HasColor(g, h, White)
      && var g' := AddRoot(g, h);
         && h in Reach(GraphOf(SlotsOf(g')), g'.roots)
         && !IsLive(Finish(g'), h)
  {
    var g := EMPTY.(objects := [Some(TriObject(GcValue([], []), White))], inProgress := true);
    var g' := AddRoot(g, 0);
    assert HasColor(g, 0, White) && CycleInvariant(g);
    RootReachable(GraphOf(SlotsOf(g')), g'.roots, 0);
  }

  // ---- An undisturbed collection ----

  ghost function Reached(g: Gc): set<Handle> {
    Reach(GraphOf(SlotsOf(g)), g.roots)
  }

  /** The objects still to be blackened. */
  ghost function NonBlack(g: Gc): set<Handle> {
    set h | 0 <= h < |g.objects| && g.objects[h].Some? && !g.objects[h].value.color.Black?
  }

  /** Without a mutator only reachable objects are ever shaded. */
  lemma {:induction false} BeginShadesReachable(g: Gc)
    requires FreeListOk(g)
    ensures NonWhite(Begin(g)) <= Reached(Begin(g))
  {
    BeginEstablishes(g);
    var g' := Begin(g);
    hide Begin;
    forall h | h in NonWhite(g') ensures h in Reached(g') {
      assert !HasColor(g', h, Black) && HasColor(g', h, Grey);
      RootReachable(GraphOf(SlotsOf(g')), g'.roots, h);
    }
  }

  lemma {:induction false} ScanShadesReachable(g: Gc)
    requires CycleInvariant(g) && g.worklist != [] && NonWhite(g) <= Reached(g)
    ensures NonWhite(Scan(g)) <= Reached(Scan(g))
    ensures NonBlack(Scan(g)) < NonBlack(g) && |NonBlack(Scan(g))| == |NonBlack(g)| - 1
  {
    ScanObjects(g);
    ScanKeeps(g);
    var h, g' := g.worklist[|g.worklist| - 1], Scan(g);
    hide Scan;
    forall x | x in NonWhite(g') ensures x in Reached(g') {
      if x !in NonWhite(g) {
        assert h in NonWhite(g) && x in GraphOf(SlotsOf(g))[h];
        StepReachable(GraphOf(SlotsOf(g)), g.roots, h, x);
      }
    }
    assert NonBlack(g') == NonBlack(g) - {h};
  }

  /** Every scan blackens one object, so as many scans as there are objects left to
      blacken empty the worklist. */
  lemma {:induction false} StepsDrain(g: Gc, n: nat)
    requires CycleInvariant(g) && NonWhite(g) <= Reached(g)
    ensures NonWhite(Steps(g, n)) <= Reached(Steps(g, n))
    ensures Steps(g, n).freeList == g.freeList
    ensures n >= |NonBlack(g)| ==> Steps(g, n).worklist == []
    ensures g.worklist != [] && n > 0 ==> |NonBlack(Steps(g, n))| < |NonBlack(g)|
    decreases n
  {
    hide Scan, CycleInvariant, NonWhite, NonBlack, Reached, HasColor, RefsOf, Queued, SlotsOf;
    if g.worklist != [] {
      SomeAreNotBlack(g);
      if n > 0 {
        ScanObjects(g);
        ScanKeeps(g);
        ScanShadesReachable(g);
        StepsDrain(Scan(g), n - 1);
        StepsShrink(Scan(g), n - 1);
      }
    }
  }

  lemma SomeAreNotBlack(g: Gc)
    requires CycleInvariant(g) && g.worklist != []
    ensures |NonBlack(g)| > 0
  {
    assert g.worklist[0] in g.worklist;
    assert g.worklist[0] in NonBlack(g);
  }

  lemma {:induction false} StepsShrink(g: Gc, n: nat)
    requires CycleInvariant(g) && NonWhite(g) <= Reached(g)
    ensures |NonBlack(Steps(g, n))| <= |NonBlack(g)|
    decreases n
  {
    hide Scan;
    if n > 0 && g.worklist != [] {
      ScanKeeps(g);
      ScanShadesReachable(g);
      StepsShrink(Scan(g), n - 1);
    }
  }

  /** When an undisturbed marking is over, exactly the reachable objects are spared. */
  lemma DrainedSparesReachable(g: Gc)
    requires CycleInvariant(g) && NonWhite(g) <= Reached(g) && g.worklist == []
    ensures NonWhite(g) == Reached(g)
  {
    ReachableIsSpared(g);
  }

  /** The heap after a complete collection: what is unreachable is freed, in ascending
      order, and nothing else changes. */
  ghost predicate Collected(slots: Slots, free: seq<Handle>, roots: seq<Handle>, slots': Slots, free': seq<Handle>) {
    var kept := Reach(GraphOf(slots), roots);
    && Swept(slots, slots', kept)
    && free' == free + Freed(LiveSlots(slots), kept, |slots|)
  }
}
