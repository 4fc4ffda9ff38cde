# Proofs about the systems labs

This project models the state-carrying parts of the labs and proves what they are for. Each
module follows one source file or one part of it; objects that the source updates in place
are classes whose methods are proved against specification functions, and the properties
of whole runs are lemmas about these functions.

- **B+ tree, in memory** (`BTreeShape`, `BTreeParts`, `BTreeLeaf`, `BTreeGrowth`,
  `BTreeChain`, `BTreeQueries`, `BTree`, `BTreeFacts`). A ghost tree says how the arena is
  to be read; inserting, splitting, moving the root and lazy deletion keep it well-formed,
  and every run answers like a plain map. The modules on the shape are written once for
  both designs, which differ in the order of the tree, the place of the split, and in
  whether moving the root leaves a stale backward link.
- **B+ tree on pages** (`LittleEndian`, `PageFormat`, `PageCaching`, `PagedBTree`,
  `PagedRuns`). The same
  refinement through an exact page codec, an LRU page cache that never changes what is
  read, and a page allocator. A new file is the exception: its root is written to page 0 but
  not counted, so the first leaf split in the session that created the file overwrites it.
  `StaysWhole` is the exact condition under which an insert is safe, `RunInCreatingSession`
  shows when a run comes to that, and `Reopen` that opening the file again ends the
  exception.
- **Bytecode machine with tail calls** (`VmMachine`, `VmInterpreter`, `VmMeaning`,
  `VmTailCalls`). The machine runs the code of every expression of a small language to the
  value that the language's own evaluator gives, calls and tail calls included. And a
  simulation between a machine that tail calls and one that calls and returns. The two
  differ by one frame and its leftover slots, for as long as the callee keeps to its own
  part of the stack, and the condition is needed.
- **Garbage collectors** (`GcGraph`, `GcTriColor`, `GcIncremental`, `GcMarkSweep`,
  `GcAgreement`). Tri-colour safety over every interleaving, exactness of both collectors,
  and their agreement down to the order of the free list.
- **LSM store** (`Decimal`, `TableNames`, `SsTable`, `LsmLayers`, `Lsm`, `LsmReopening`,
  `LsmRuns`).
  Byte-level tables with a sparse index refine sorted entries, layers refine one map, and
  reopening loses only what was not flushed.
- **RESP2 reader** (`Utf8`, `Utf8Scalars`, `Resp`, `RespAnswers`, `RespProgress`,
  `RespConnection`). An incremental parser
  and its buffer loop, for every stream and every way of cutting it into reads: which
  buffers can still be answered, and for which streams the cutting matters. The wire format
  is that of the Redis serialization protocol, sections "Arrays" and "Bulk strings".
- **Workflow executor** (`DagPaths`, `Workflow`, `WorkflowRuns`, `WorkflowCache`). Kahn's
  algorithm with cycle detection in both directions, execution, and a content-addressed
  cache that agrees with execution without it.
- **Batch engine** (`PagedCache`, `BatchEngine`). Page conservation, the invariant of the
  scheduler, and termination within a bound, with a model that may answer any token.
- **Caches** (`LruCache`, `LruRuns`, `LruDeadlines`). Time-stamp eviction against a recency
  list, an append-only log against the live entries, and how long an entry with a deadline
  answers, over whole runs.
- **Columns** (`ColumnScan`, `BitPacking`, `ColumnFile`). Pruned scans, bit packing, and a file
  that is read from its footer.
- **Documents** (`DocCodec`, `DocStore`). A recursive binary codec, an append-only file with
  offsets, and secondary indexes that agree with a full scan.
- **Shared** (`ByteStrings`, `Options`, `Sequences`, `SortedEntries`, `Arithmetic`).

Where a comment or a promise of the code does not hold, the code is modelled, and the exact
condition under which it does hold is proved in both directions: `BackwardLinksExactly`,
`SafeExactly` and `RunInCreatingSession`, `RoundTripExactly`, `WriteIsCoherentExactly`,
`AddRootKeepsExactly`, `NamesInOrderExactly`, `RecordRoundTripExactly`, `CallKeepsSlotsExactly`,
`RespProgress.AnsweredExactly`, `ReplayExactly`,
`CuttingsAgreeExactly`, `EvictionsAgreeExactly`, `EvictsExactly`, `LostExactly`,
`FloatOrderDiffersExactly` and `ScanLikeSelect`, `PushAddsRowExactly`, and `RoundTrip` of
`BitPacking`. For tail calls the condition on the callee is sufficient, and
`PoppingBelowTheBaseShowsTheDifference` is an example that shows it cannot be dropped.
The comment that a node of the
in-memory tree keeps a least number of keys (labs/btree-kv/src/v0.rs:46-47) does not hold
either, since deletion never merges nodes; no lower bound is claimed.

`dafny verify dfyconfig.toml` checks everything.

## Model

| member | source | states |
|---|---|---|
| BTreeFacts.RunFromNew | labs/btree-kv/src/v0.rs:148-256 | Any run of insert, delete, get, range, length and emptiness calls on a new tree gives at every call exactly the answer of a plain map after the calls before it. |
| BTrees.BTree.Insert | labs/btree-kv/src/v0.rs:162-178 | Keeps the tree well-formed through leaf, internal and root splits; the sorted contents are the old ones with the key put in, the model map is updated at the key alone. |
| BTrees.BTree.Delete | labs/btree-kv/src/v0.rs:194-205 | Says whether the key was there; contents and model lose just this key, while leaves may stay behind empty and the shape stays well-formed. |
| BTrees.BTree.Get | labs/btree-kv/src/v0.rs:181-188 | Answers with the model map's value, or none exactly if the key is not in it. |
| BTrees.BTree.Range | labs/btree-kv/src/v0.rs:217-243 | Walking the leaf list from the start key's leaf gives, in key order, exactly the bindings of the model map in the closed interval. |
| BTrees.BTree.Len | labs/btree-kv/src/v0.rs:246-250 | The key count over the leaf list is the size of the model map. |
| BTrees.BTree.LeafIter | labs/btree-kv/src/v0.rs:459-471 | The `next` links from `first_leaf` visit the leaves of the tree, each once, from left to right. |
| BTrees.BTree.FindLeaf | labs/btree-kv/src/v0.rs:266-279 | Ends at the one leaf whose key interval covers the key, wherever emptied leaves lie. |
| BTrees.BTree.InsertRecursive | labs/btree-kv/src/v0.rs:282-307 | What stands below the node afterwards is the same subtree, or two with a separator, that hold the old entries with the key put in; nodes outside are untouched but for one backward link. |
| BTrees.BTree.LeafInsert | labs/btree-kv/src/v0.rs:311-347 | The same for a leaf: overwrite, insert with room, or split and insert into the half that covers the key. |
| BTrees.BTree.SplitLeaf | labs/btree-kv/src/v0.rs:361-392 | The upper half goes to a new slot and both neighbours are relinked; the promoted key is the first of the upper half. |
| BTrees.BTree.InternalAbsorbSplit | labs/btree-kv/src/v0.rs:396-413 | A split child's separator and right half enter this node at the child's place; a full node splits in turn. |
| BTrees.BTree.SplitInternal | labs/btree-kv/src/v0.rs:416-456 | The node's keys and children with the new ones are parted around the promoted key, which stays in neither half. |
| BTreeLeaf.HalfChosen | labs/btree-kv/src/v0.rs:311-359 | After a leaf split the comparison with the separator picks the half that covers the key, and that half has room and does not hold the key. |
| BTreeParts.Ascend | labs/btree-kv/src/v0.rs:282-309 | Replacing a child by what it became gives a part of the tree again, with the key put into its entries, the leaf list intact and no slot used twice. |
| BTreeGrowth.RootGrown | labs/btree-kv/src/v0.rs:162-179 | Copying the old root out of slot 0 and writing a new root over it gives a well-formed tree, one level higher, with the key put in. |
| BTreeQueries.ContentsAround | labs/btree-kv/src/v0.rs:181-215 | Looking up or removing a key in the covering leaf is looking it up in, or removing it from, the whole tree. |
| BTreeQueries.TreeRemoved | labs/btree-kv/src/v0.rs:194-215 | Dropping a key from its leaf keeps the whole tree well-formed although nothing is merged. |
| BTreeFacts.ArenaShape | labs/btree-kv/src/v0.rs:20-57 | Every slot of the arena holds a node with at most three keys, and one child more than keys or one value for every key. |
| BTreeFacts.Balanced | labs/btree-kv/src/v0.rs:20-57 | All leaves are at the same depth below slot 0. |
| BTreeFacts.BackwardLinksExactly | labs/btree-kv/src/v0.rs:361-394 | A leaf's `prev` names its left neighbour exactly unless it is the right leaf of the first root split, which keeps pointing at slot 0, by then an internal node. |
| BTreeFacts.ThreeSlotsHaveTheStaleLink | labs/btree-kv/src/v0.rs:162-179 | After the first root split of v0 the stale backward link is there without exception. |
| SortedEntries.PutRemoveContent | labs/btree-kv/src/v0.rs:162-215 | On sorted entries, putting and removing are map update and map removal, and keep the order. |
| SortedEntries.BetweenMeaning | labs/btree-kv/src/v0.rs:217-244 | An interval query returns, in order, exactly the bindings whose keys lie in the interval. |
| PagedBTrees.PagedBTree.Insert | labs/btree-kv/src/v1.rs:359-400 | The same refinement on pages behind the cache, for keys of at most 62 and values of at most 126 bytes; in the session that created the file it holds exactly until the first leaf split, which loses the root. |
| PagedRuns.RunInCreatingSession | labs/btree-kv/src/v1.rs:326-455 | In the session that creates the file, any run answers like a plain map if and only if that never has more than 15 keys; the first insertion of a 16th loses the root. |
| PagedRuns.RunReopened | labs/btree-kv/src/v1.rs:326-455 | Any run on a reopened tree answers like a plain map from what the tree held, for as long as page numbers last. |
| PagedRuns.SafeExactly | labs/btree-kv/src/v1.rs:359-400 | In the creating session an insertion is safe if and only if the root leaf has room for all keys afterwards. |
| PagedBTrees.PagedBTree.Delete | labs/btree-kv/src/v1.rs:414-427 | Says whether the key was there, and removes just this key from contents and model. |
| PagedBTrees.PagedBTree.Get | labs/btree-kv/src/v1.rs:403-411 | Answers with the model map's value, whatever the cache holds. |
| PagedBTrees.PagedBTree.Range | labs/btree-kv/src/v1.rs:430-455 | Exactly the bindings in the closed interval, in key order. |
| PagedBTrees.PagedBTree.FindLeaf | labs/btree-kv/src/v1.rs:492-504 | Ends at the page of the leaf that covers the key. |
| PagedBTrees.PagedBTree.Create | labs/btree-kv/src/v1.rs:326-357 | A new file holds an empty root on page 0 while `next_page_id` stays 0, so that page 0 is not counted as taken. |
| PagedBTrees.PagedBTree.Open | labs/btree-kv/src/v1.rs:326-357 | Opening a file whose pages hold a tree gives a store with that tree, whose new pages go behind all others. |
| PagedBTrees.PagedBTree.InsertRecursive | labs/btree-kv/src/v1.rs:507-531 | What stands below the page afterwards holds the old entries with the key put in; in the creating session a split instead overwrites one half with the other, exactly if the root leaf is full. |
| PagedBTrees.PagedBTree.LeafInsert | labs/btree-kv/src/v1.rs:533-574 | The same for a leaf page, with the half that takes the key chosen after the split. |
| PagedBTrees.PagedBTree.SplitLeafNode | labs/btree-kv/src/v1.rs:576-604 | Three page writes amount to the in-memory leaf split with both neighbours relinked; with page 0 not counted only the upper half is left. |
| PagedBTrees.PagedBTree.InternalAbsorbSplit | labs/btree-kv/src/v1.rs:606-623 | A child's split is taken up at its place, splitting this page's node too when it is full. |
| PagedBTrees.PagedBTree.SplitInternalNode | labs/btree-kv/src/v1.rs:625-653 | Keys and children with the new ones are parted around the promoted key. |
| PagedBTrees.Reopen | labs/btree-kv/src/v1.rs:326-357 | Closing and opening gives the same nodes, contents and model, and an allocator that no longer collides. |
| PagedBTrees.UpperHalfLost | labs/btree-kv/src/v1.rs:459-463 | After a split in the creating session the smallest key of the root is on no page. |
| PagedBTrees.HeightBound | labs/btree-kv/src/v1.rs:507-531 | The height is below the number of pages, which bounds the pages that one insert may allocate. |
| BTreeFacts.LinksAreInverse | labs/btree-kv/src/v1.rs:373-385 | With the repaired link of v1, `next` and `prev` are inverse to each other over all leaves, also after the root leaf was moved. |
| PageFormat.EncodePage | labs/btree-kv/src/v1.rs:158-210 | The byte loops fill a 4096-byte page as the format lays it out. |
| PageFormat.DecodePage | labs/btree-kv/src/v1.rs:213-259 | The loops over slots and identifiers read what the format says, or report the bad type or the short page. |
| PageFormat.DecodeEncode | labs/btree-kv/src/v1.rs:158-262 | Reading a written page gives the node with every key and value cut to its slot. |
| PageFormat.RoundTripExactly | labs/btree-kv/src/v1.rs:158-262 | A node survives its page if and only if every key has at most 62 bytes and every value at most 126. |
| PageCaching.PageCache.Get | labs/btree-kv/src/v1.rs:281-290 | A hit moves the page to the front of the order of use; the pages stay as they are. |
| PageCaching.PageCache.Insert | labs/btree-kv/src/v1.rs:292-304 | The page is kept at the front, at the expense of the page unused for longest when the cache is full; no other page changes. |
| PageCaching.PageCache.Invalidate | labs/btree-kv/src/v1.rs:306-309 | Just this page leaves the cache and the order. |
| PageCaching.PageFile.ReadPage | labs/btree-kv/src/v1.rs:465-478 | The result is what the file alone would give, for every capacity and every history of the cache. |
| PageCaching.PageFile.WritePage | labs/btree-kv/src/v1.rs:480-489 | File and cache take the node; they agree afterwards if and only if it fits its slots. |
| PageCaching.WriteIsCoherentExactly | labs/btree-kv/src/v1.rs:480-490 | A cache that agreed with the file agrees with it after a write-through exactly if the node fits its page. |
| VmTailCalls.TailCallMeansCallAndReturn | labs/bytecode-vm/src/v2.rs:277-353 | For every callee that keeps to its own part of the stack until it returns, under the depth limit, a tail call ends with the same value into the same stack and frames as a call followed by a return. |
| VmTailCalls.TailCallFollowsCall | labs/bytecode-vm/src/v2.rs:277-338 | While the callee runs, the two machines stay in lockstep: fail alike, or go on in states that differ by the caller's frame and leftover slots alone. |
| VmTailCalls.SameProgramResult | labs/bytecode-vm/src/v2.rs:277-353 | From there on the whole programs go on alike for any number of steps, but for one frame counted. |
| VmTailCalls.TailCallsAddNoFrame | labs/bytecode-vm/src/v2.rs:306-338 | However many tail calls are chained, call stack, base and frame count stay what they were. |
| VmTailCalls.PoppingBelowTheBaseShowsTheDifference | labs/bytecode-vm/src/v2.rs:366-368 | Without the condition the claim is false: a callee that pops its caller's slot succeeds when called and underflows when tail called. |
| VmTailCalls.StepLifted | labs/bytecode-vm/src/v2.rs:132-362 | Every instruction commutes with putting a frame and its leftover slots underneath, as long as it stays above the base. |
| VmTailCalls.RunLifted | labs/bytecode-vm/src/v2.rs:132-362 | So does every run. |
| VmTailCalls.CallsEnterAlike | labs/bytecode-vm/src/v2.rs:277-338 | Right after entering, called and tail-called machine correspond. |
| VmTailCalls.CalleeReturns | labs/bytecode-vm/src/v2.rs:340-353 | The return of the callee and the two returns of the called version leave the same stack, frames, base and code. |
| VmTailCalls.FramesKept | labs/bytecode-vm/src/v2.rs:277-353 | A run that keeps to its own part leaves the frames below it as they are. |
| VmTailCalls.CounterIsOnlyCounted | labs/bytecode-vm/src/v2.rs:107-117 | No outcome depends on the frame counter. |
| VmMachine.RunSplits | labs/bytecode-vm/src/v2.rs:132-362 | Running `m + n` steps is running `m` and then `n`. |
| VmInterpreter.Vm.Run | labs/bytecode-vm/src/v2.rs:132-362 | The loop over the machine's fields does, turn by turn, what the step relation says, with the same value or error, and leaves the same fields when it finishes with a value or has not finished. |
| VmInterpreter.Vm.Perform | labs/bytecode-vm/src/v2.rs:141-359 | Each arm of the interpreter changes the fields as the instruction's meaning demands. |
| VmInterpreter.Vm.PerformCall | labs/bytecode-vm/src/v2.rs:277-304 | A call saves the frame, rebases the stack under the arguments and enters the closure, or fails for want of depth or operands. |
| VmInterpreter.Vm.PerformTailCall | labs/bytecode-vm/src/v2.rs:306-338 | A tail call moves the arguments down to the base, drops the rest of the frame and enters the closure in place. |
| VmInterpreter.Vm.PerformReturn | labs/bytecode-vm/src/v2.rs:340-353 | A return restores the caller and truncates the stack to the caller's own base, which drops the caller's slots. |
| VmMeaning.CodeComputes | labs/bytecode-vm/src/v2.rs:141-359 | Expressions with arithmetic, comparison, conditionals, assignable locals and captured values have an evaluator of their own; their code, wherever it stands and whatever lies below on the stack, leaves exactly the value on top and goes on behind the code, or fails with exactly the error. |
| VmMeaning.RunExpression | labs/bytecode-vm/src/v2.rs:132-362 | The interpreter started on a whole program answers the value of any such expression, or its error. |
| VmMeaning.OperatorStep | labs/bytecode-vm/src/v2.rs:150-205 | An operator takes its operands in the order in which they were pushed: the lower one is the left one. |
| VmMeaning.QuotientMeans | labs/bytecode-vm/src/v2.rs:181-188 | Division rounds toward zero, and what remains has the sign of the dividend. |
| VmMeaning.BranchComputes | labs/bytecode-vm/src/v2.rs:211-216 | A conditional jump takes its condition, goes on behind itself if that is true, and by its offset if it is false. |
| VmMeaning.JumpComputes | labs/bytecode-vm/src/v2.rs:394-401 | A jump goes by its offset from where it stands, forwards or backwards, up to the end of the code, or fails with the place it aims at. |
| VmMeaning.CallComputes | labs/bytecode-vm/src/v2.rs:277-304 | A call with its arguments on the stack ends behind the call with the value of the function's body for these arguments and the captured values. |
| VmMeaning.CallKeepsSlotsExactly | labs/bytecode-vm/src/v2.rs:277-353 | The return of such a call keeps the caller's slots above its base if and only if there are none. |
| VmMeaning.TailCallComputes | labs/bytecode-vm/src/v2.rs:306-338 | A tail call gives the value of the body to the caller of the frame that it replaces. |
| VmMeaning.MakeClosureComputes | labs/bytecode-vm/src/v2.rs:235-250 | A closure captures the topmost values in the order in which they were pushed. |
| VmMeaning.Refusals | labs/bytecode-vm/src/v2.rs:141-359 | Taking from too short a stack, a closure where a value is needed, a slot or captured value that is not there, a call at full depth and a call of no closure are refused with the error of each. |
| VmMeaning.ClosuresDiffer | labs/bytecode-vm/src/v2.rs:79-86 | Nothing equals a closure, not even itself. |
| GcTriColor.CycleIsSafe | labs/garbage-collector/src/v2.rs:90-234 | In every interleaving of mutator and collector steps between begin and an empty worklist, finishing frees nothing that the roots reach, and changes no object that it keeps. |
| GcTriColor.InterleavingKeeps | labs/garbage-collector/src/v2.rs:90-234 | The invariant of a cycle survives every such interleaving: no black object refers to a live white one, exactly the grey objects are queued, and no root is white. |
| GcTriColor.AddRootKeepsExactly | labs/garbage-collector/src/v2.rs:109-113 | `add_root` keeps the invariant in mid-cycle if and only if the object is not a live white one, because it does not shade. |
| GcTriColor.WhiteRootIsLost | labs/garbage-collector/src/v2.rs:109-113 | A live white object made a root in mid-cycle is freed although it is a root. |
| GcTriColor.WriteRefKeeps | labs/garbage-collector/src/v2.rs:129-164 | Store and barrier keep the invariant, and the barrier fires exactly when the bare store would break it. |
| GcTriColor.AllocKeeps | labs/garbage-collector/src/v2.rs:90-106 | Objects allocated in mid-cycle are grey and queued, which keeps the invariant. |
| GcTriColor.RemoveRootKeeps | labs/garbage-collector/src/v2.rs:116-118 | Removing a root never breaks the invariant. |
| GcTriColor.BeginEstablishes | labs/garbage-collector/src/v2.rs:167-180 | After begin the invariant holds, nothing is black, and exactly the live roots are grey. |
| GcTriColor.ScanKeeps | labs/garbage-collector/src/v2.rs:187-209 | Blackening the last grey object and shading its references keeps the invariant and the heap's contents. |
| GcTriColor.ReachableIsSpared | labs/garbage-collector/src/v2.rs:215-234 | With an empty worklist everything reachable is non-white. |
| GcTriColor.StepsDrain | labs/garbage-collector/src/v2.rs:187-209 | Every scan brings one more object to black, so as many scans as there are other objects empty the worklist. |
| GcTriColor.DrainedSparesReachable | labs/garbage-collector/src/v2.rs:237-247 | Without a mutator, exactly the reachable objects are spared. |
| GcIncremental.IncrementalGc.Allocate | labs/garbage-collector/src/v2.rs:90-106 | Takes the slot freed last, or grows the heap; in the slots exactly the new object is added, with its value; it is grey and queued in mid-cycle and white outside. |
| GcIncremental.IncrementalGc.AddRoot | labs/garbage-collector/src/v2.rs:109-113 | The collector's invariant survives exactly unless a live white object becomes a root in mid-cycle. |
| GcIncremental.IncrementalGc.WriteRef | labs/garbage-collector/src/v2.rs:129-164 | Exactly the one reference is added to the slots, unless the source object is dead or has it; its target is shaded when a black object would come to refer to a white one. |
| GcIncremental.IncrementalGc.RemoveRoot | labs/garbage-collector/src/v2.rs:116-118 | Exactly the other roots stay, and nothing else changes. |
| GcIncremental.IncrementalGc.Begin | labs/garbage-collector/src/v2.rs:167-180 | Starts a cycle from any heap with a sound free list. |
| GcIncremental.IncrementalGc.Step | labs/garbage-collector/src/v2.rs:187-209 | Scans as many grey objects as asked for or as there are, and says how many are left. |
| GcIncremental.IncrementalGc.Finish | labs/garbage-collector/src/v2.rs:215-234 | Frees exactly the white objects and leaves a sound free list. |
| GcIncremental.IncrementalGc.CollectAll | labs/garbage-collector/src/v2.rs:237-247 | Terminates, and frees exactly what the roots do not reach. |
| GcMarkSweep.Heap.Collect | labs/garbage-collector/src/v0.rs:108-141 | Frees exactly what the roots do not reach, appends the freed slots to the free list in slot order, and counts what it did. |
| GcMarkSweep.Heap.Mark | labs/garbage-collector/src/v0.rs:147-159 | Terminates; marks everything reachable from the start and nothing that the roots do not reach. |
| GcMarkSweep.Heap.Alloc | labs/garbage-collector/src/v0.rs:54-64 | Takes the slot freed last, or grows the heap; the free list stays exactly the empty slots without repeats. |
| GcMarkSweep.Heap.AddRef | labs/garbage-collector/src/v0.rs:89-95 | Adds a reference once, to a live object alone. |
| GcMarkSweep.Heap.LiveCount | labs/garbage-collector/src/v0.rs:98-100 | Counts the live slots. |
| GcGraph.ReachIsLeastClosed | labs/garbage-collector/src/v0.rs:108-159 | Reachable objects are the least set that holds the live roots and is closed under live references. |
| GcGraph.FreedKeepsList | labs/garbage-collector/src/v0.rs:108-145 | Appending the freed slots keeps the free list exactly the empty slots, each once. |
| GcAgreement.CollectBoth | labs/garbage-collector/src/v2.rs:237-247 | On the same heap with the same roots both collectors end with the same slots and the same free list, in which exactly the reachable objects are live. |
| LsmRuns.RunFromNew | labs/lsm-kv/src/v1.rs:93-223 | For every run of puts, deletes, lookups, flushes and reopenings of a new directory, each lookup finds the last value put and not deleted; reopening takes back exactly the writes since the last flush, explicit or by the threshold. |
| LsmRuns.Perform | labs/lsm-kv/src/v1.rs:93-223 | Each operation keeps the store in step with a map of what it answers, a map of what is in tables, and the bytes that are not. |
| LsmStore.Lsm.Get | labs/lsm-kv/src/v1.rs:153-167 | The answer is the model map's value, or none; no search of the written bytes fails. |
| LsmStore.Lsm.Put | labs/lsm-kv/src/v1.rs:144-150 | Updates the model map at the key, and flushes exactly when the byte count reaches the threshold. |
| LsmStore.Lsm.Delete | labs/lsm-kv/src/v1.rs:170-174 | Removes the key from the model map by a tombstone that shadows all older tables. |
| LsmStore.Lsm.Flush | labs/lsm-kv/src/v1.rs:177-182 | Changes no answer; afterwards all of the model is in tables. |
| LsmStore.Lsm.FlushMemtable | labs/lsm-kv/src/v1.rs:196-221 | The memtable becomes the newest table, byte by byte readable, with the next number. |
| LsmStore.WriteSstable | labs/lsm-kv/src/v1.rs:226-274 | The written bytes are data, index and footer of the records, and the index returned is the one written. |
| LsmStore.SstableGet | labs/lsm-kv/src/v1.rs:318-391 | The binary search in the sparse index and the scan over the bytes give what the table format says. |
| LsmStore.LoadTableIndex | labs/lsm-kv/src/v1.rs:277-315 | Reads the index back from footer and index block, or fails at the end of the file. |
| SsTable.TableGetIsLookup | labs/lsm-kv/src/v1.rs:318-391 | Searching the bytes of a written table is looking up the key in its sorted records, for every key. |
| SsTable.StartIsBelow | labs/lsm-kv/src/v1.rs:318-335 | The sparse index never points past the key: all records before the start are smaller. |
| SsTable.ScanIsLookup | labs/lsm-kv/src/v1.rs:336-391 | The forward scan stops at the key, or where it would be, before the index block. |
| SsTable.RecordRoundTripExactly | labs/lsm-kv/src/v1.rs:226-250 | A record followed by anything is read back with its size if and only if its lengths fit their fields. |
| SsTable.LoadIndexOfFile | labs/lsm-kv/src/v1.rs:277-316 | Loading a written file gives the index that was built while writing it. |
| LsmLayers.OverlayAnswer | labs/lsm-kv/src/v1.rs:153-168 | A key is answered by the newest layer that mentions it, a tombstone included. |
| LsmLayers.StillFits | labs/lsm-kv/src/v1.rs:189-194 | A memtable below the threshold can take one more record and still be written with lengths that fit. |
| LsmReopening.Open | labs/lsm-kv/src/v1.rs:93-141 | Loads all tables, newest first, and continues numbering behind the largest number found. |
| LsmReopening.Reopen | labs/lsm-kv/src/v1.rs:93-141 | A reopened store has the same tables, indexes and numbering, and its map is what had been flushed: only unflushed writes are lost. |
| LsmReopening.ListingSorted | labs/lsm-kv/src/v1.rs:93-141 | However the directory is listed, its table names sort into the order in which they were written. |
| TableNames.NamesInOrderExactly | labs/lsm-kv/src/v1.rs:196-223 | Names sort like their numbers if and only if the numbers stay below ten digits. |
| TableNames.SeqNoRoundTrip | labs/lsm-kv/src/v1.rs:93-141 | A table's name gives its number back. |
| RespConnection.CommandsAreDispatched | labs/kv-cache/src/v1.rs:95-129 | Any sequence of encoded commands, cut into reads in any way, is dispatched exactly as sent, and an unfinished last command stays buffered. |
| RespConnection.AnyCutting | labs/kv-cache/src/v1.rs:95-129 | However a stream is cut, up to its first error the connection does what the whole stream would have it do at once. |
| RespConnection.CuttingsAgreeExactly | labs/kv-cache/src/v1.rs:95-129 | All cuttings of a stream into reads of any size have the same outcome if and only if the stream holds no error, or is one error that its last byte completes. |
| RespConnection.CommandThenErrorDiffers | labs/kv-cache/src/v1.rs:104-127 | Every stream whose first error stands behind a command stops the program when read at once, by draining a cleared buffer, and not when the error is read on its own. |
| RespConnection.EarlyErrorDiffers | labs/kv-cache/src/v1.rs:115-125 | Every stream that goes on behind a first error loses what is read with the error, and not what is read later. |
| RespConnection.QuietCutting | labs/kv-cache/src/v1.rs:95-129 | A stream that is one error, completed by its last byte, does nothing before that byte in any cutting, and is answered once. |
| RespConnection.HandleConnection | labs/kv-cache/src/v1.rs:95-128 | The loop over reads dispatches, answers and buffers as the stream semantics says. |
| RespConnection.DrainAppend | labs/kv-cache/src/v1.rs:104-127 | Draining what has come and then the rest is draining it all. |
| RespConnection.PipelineDrains | labs/kv-cache/src/v1.rs:104-127 | A pipeline of complete commands is dispatched whole and consumed to its last byte. |
| Resp.ParseCommand | labs/kv-cache/src/v1.rs:144-154 | Parses the array form by its loop and the inline form, as the grammar says. |
| Resp.ParseArray | labs/kv-cache/src/v1.rs:156-211 | The argument loop reads as many bulk strings as announced, or says that more must come or what is wrong. |
| Resp.EncodingParses | labs/kv-cache/src/v1.rs:144-209 | A full encoding followed by anything is read back with its exact length. |
| Resp.PrefixIsIncomplete | labs/kv-cache/src/v1.rs:144-229 | Every strict prefix of an encoding is incomplete. |
| Resp.AnswerStays | labs/kv-cache/src/v1.rs:144-229 | A command or an error, once found, is found whatever follows. |
| RespProgress.AnsweredExactly | labs/kv-cache/src/v1.rs:144-229 | More input can bring a command or an error if and only if the buffer is not stuck: its first line, or the length line of the argument being read, neither is nor can become UTF-8. |
| RespProgress.StuckIsNotAnswered | labs/kv-cache/src/v1.rs:224-229 | A stuck buffer reads as incomplete for ever, whatever follows. |
| RespProgress.AnswerComes | labs/kv-cache/src/v1.rs:144-229 | For any other buffer there are bytes that bring an answer: the rest of a character, the end of the line, and what the length announces. |
| Utf8.OnlyPrefixesComplete | labs/kv-cache/src/v1.rs:224-229 | Bytes that can be extended to UTF-8 are whole characters and at most one beginning of a character; with `Utf8Completes` these are exactly the extensible ones. |
| Utf8Scalars.ValidExactly | labs/kv-cache/src/v1.rs:224-229 | A byte string is a line or an argument of text if and only if it is the encoding of a sequence of Unicode scalar values. |
| Resp.ConsumedSuffices | labs/kv-cache/src/v1.rs:144-209 | A command is read from the bytes that it takes alone, whatever came with them. |
| Resp.InlineParses | labs/kv-cache/src/v1.rs:213-221 | A line of words parses as these words, with the exact length. |
| RespAnswers.NullsAreEmpty | labs/kv-cache/src/v1.rs:156-211 | An array of strings and of nulls, which are written as any negative length, is read as these strings with an empty one for every null, and with its exact length. |
| RespAnswers.FirstFaultAnswers | labs/kv-cache/src/v1.rs:156-211 | The first argument that is wrong decides the answer, whatever stands around it: no dollar sign, a length that is no number, or bytes that are not UTF-8. |
| RespAnswers.ArrayLengths | labs/kv-cache/src/v1.rs:156-172 | A null array of any negative count is an empty command; a count that is no number is an error that names it. |
| RespAnswers.SignedNumbers | labs/kv-cache/src/v1.rs:162-165 | Digits with or without a sign in front are read as the number that they name if it has 64 bits, and not otherwise. |
| RespAnswers.NotANumberIsRefused | labs/kv-cache/src/v1.rs:162-165 | Nothing, a sign alone, and anything with another character than digits behind an optional sign is no number. |
| Workflow.WorkflowGraph.TopologicalOrder | labs/comfyui-executor/src/v0_dag.py:84-116 | Terminates; gives every node once with every edge, parallel ones included, pointing forward, and raises if and only if there is a cycle. |
| Workflow.WorkflowGraph.AddNode | labs/comfyui-executor/src/v0_dag.py:61-67 | Refuses duplicates before unknown types, and changes nothing when it refuses. |
| Workflow.WorkflowGraph.AddEdge | labs/comfyui-executor/src/v0_dag.py:69-80 | Refuses a missing source before a missing destination; otherwise appends the edge. |
| Workflow.TakeNext | labs/comfyui-executor/src/v0_dag.py:103-109 | Taking the head of the queue keeps the counts: a node's count is its edges from nodes not yet taken and those still to be counted off. |
| Workflow.CountOff | labs/comfyui-executor/src/v0_dag.py:106-109 | Counting off one edge keeps the counts, and queues a node exactly when its last edge is counted. |
| Workflow.Finished | labs/comfyui-executor/src/v0_dag.py:111-116 | When the queue has run empty, the order is complete if and only if there is no cycle. |
| DagPaths.NoSourceMeansCycle | labs/comfyui-executor/src/v0_dag.py:111-116 | A set of nodes each of which has a predecessor in the set holds a cycle. |
| DagPaths.ForwardOrderHasNoCycle | labs/comfyui-executor/src/v0_dag.py:84-116 | An order in which every edge points forward rules out cycles. |
| WorkflowRuns.ExecuteWorkflow | labs/comfyui-executor/src/v0_dag.py:135-155 | Every node's result is its operation on inputs that are exactly those that its edges name: under the destination key of each edge, of which the last to a key counts, the output under the source key of the source's result, or null; a graph with a cycle is refused untouched. |
| WorkflowRuns.InputsAreWired | labs/comfyui-executor/src/v0_dag.py:145-150 | The inputs gathered for a node are what the edges say, key by key. |
| WorkflowRuns.WiredIsUnique | labs/comfyui-executor/src/v0_dag.py:145-150 | What the edges say leaves one dictionary of inputs only. |
| WorkflowRuns.ConsistentMeans | labs/comfyui-executor/src/v0_dag.py:135-155 | A result is consistent if and only if every node has run on inputs that are wired to it. |
| WorkflowRuns.ResultIsUnique | labs/comfyui-executor/src/v0_dag.py:135-155 | A graph without cycles has one consistent result only, whatever the order of execution. |
| WorkflowRuns.InvalidateDownstream | labs/comfyui-executor/src/v1_cached.py:80-100 | The nodes reachable from the given one, itself included, each once. |
| WorkflowCache.CompareRuns | labs/comfyui-executor/src/v1_cached.py:123-155 | With pure nodes and collision-free keys, a cached run returns what a plain run returns, for any graph and anything cached before. |
| WorkflowCache.CachingExecutor.Run | labs/comfyui-executor/src/v1_cached.py:123-155 | Every node's result is its operation on the inputs that its edges name, hits and misses add up to the nodes, only missing keys are executed, and the cache stays sound. |
| WorkflowCache.CachingExecutor.InvalidateNode | labs/comfyui-executor/src/v1_cached.py:157-163 | Drops exactly the cached results of reachable nodes under their last keys, and keeps all others. |
| WorkflowCache.RunTwice | labs/comfyui-executor/src/v1_cached.py:123-155 | A second run of the same graph executes no node and gives the same results. |
| WorkflowCache.CollisionFreeKeysTell | labs/comfyui-executor/src/v1_cached.py:35-47 | Equal keys mean equal outputs when the hashes do not collide. |
| BatchEngine.BatchedEngine.RunUntilEmpty | labs/llm-inference/src/v2_batched.py:387-395 | If the steps suffice for the sum of max(1, max_tokens), everything submitted is finished, once, each callback was fired once with all tokens, and every page is free, even if allocations failed; what is finished has no end token before its last one, and ends in one or has as many tokens as allowed. |
| BatchEngine.BatchedEngine.SchedulerStep | labs/llm-inference/src/v2_batched.py:302-385 | Keeps the invariant of the engine, gives each request of the batch exactly one token, and makes progress whenever there is work and room. |
| BatchEngine.BatchedEngine.Submit | labs/llm-inference/src/v2_batched.py:296-300 | A new request is queued behind all others, untouched. |
| BatchEngine.BatchedEngine.Admit | labs/llm-inference/src/v2_batched.py:314-320 | Fills the batch up to its size: those admitted stand in the order of their priority numbers, and of their submission among equals, and all that stay waiting come after them in that order; nothing is lost. |
| BatchEngine.BatchedEngine.AdmitNext | labs/llm-inference/src/v2_batched.py:314-320 | The request admitted has the lowest priority number, and came first among those that have it. |
| BatchEngine.BatchedEngine.Generate | labs/llm-inference/src/v2_batched.py:329-361 | One token more for one request, whatever the model answers, and no other request changes. |
| BatchEngine.BatchedEngine.Complete | labs/llm-inference/src/v2_batched.py:363-382 | The request leaves the batch complete, its pages are free and its callback fired once. |
| BatchEngine.AdmitKeeps | labs/llm-inference/src/v2_batched.py:314-320 | Admission keeps every request in exactly one place, and the work to be done. |
| BatchEngine.TokenKeeps | labs/llm-inference/src/v2_batched.py:329-361 | A token keeps the invariant and lowers the work by one. |
| BatchEngine.FinishKeeps | labs/llm-inference/src/v2_batched.py:363-382 | Completion keeps the invariant: one place for each request, callbacks in the order of completion, pages held by active requests only. |
| BatchEngine.RequestQueue.Push | labs/llm-inference/src/v2_batched.py:220-222 | Appends with the next arrival number and the request's priority. |
| BatchEngine.RequestQueue.Pop | labs/llm-inference/src/v2_batched.py:224-228 | Takes the entry with the lowest priority number that came first, or none if the queue is empty. |
| BatchEngine.PlacesOf | labs/llm-inference/src/v2_batched.py:314-320 | Entries taken in order had stood at places that increase among equal priorities, and the others stay in their order. |
| PagedCache.PagesArePartitioned | labs/llm-inference/src/v2_batched.py:75-101 | Every page is free or in one request's list, never both, never twice. |
| PagedCache.PagedKVCache.AllocatePage | labs/llm-inference/src/v2_batched.py:103-121 | Moves one free page, blanked, to the end of the request's list; fails exactly when none is free, and then changes nothing. |
| PagedCache.PagedKVCache.RecordToken | labs/llm-inference/src/v2_batched.py:123-147 | Counts one token and takes a page exactly when the last is full; a request's first page does not count the token; other requests keep pages and tokens; failure means that no page was free. |
| PagedCache.PagedKVCache.FreeRequest | labs/llm-inference/src/v2_batched.py:149-162 | All pages of the request become free and blank, and it says how many. |
| PagedCache.PageTakenPacked | labs/llm-inference/src/v2_batched.py:123-147 | Pages are taken only when the last is full, so that all but the last page of a request are full. |
| LruRuns.RunCache | labs/kv-cache/src/v2.rs:149-228 | Any run of puts, gets and deletions keeps and answers what a recency list would, in memory or with a log; the log replays to the live values and those evicted and not put again, which is what is live if and only if there are none, and is all that was put if nothing was ever evicted. |
| LruRuns.RunBoth | labs/kv-cache/src/v2.rs:149-228 | Over any run without deletions, which the embedding cache lacks, both caches give the same answers and keep the same entries; the log replays to all that was put, which is what is live if and only if no more keys were put than fit. |
| LruRuns.RunEmbedding | labs/embedding-pipeline/src/v1_batched.py:72-93 | The recency-list cache keeps and answers what the specification says. |
| LruRuns.EvictsExactly | labs/kv-cache/src/v2.rs:149-158 | Something is evicted in a run if and only if at some time there was more to hold than fits. |
| LruRuns.LostExactly | labs/kv-cache/src/v2.rs:149-158 | Without deletions, live and evicted values make up all that was put, and something is lost if and only if more keys were put than fit. |
| LruRuns.OnlyEvictionForgets | labs/kv-cache/src/v2.rs:149-195 | What is live is the last value put and not deleted; what is neither live nor evicted was deleted or never put. |
| LruRuns.AfterConsistent | labs/kv-cache/src/v2.rs:149-158 | In any run no more entries are live than the limit allows, but for the one that a limit of 0 lets in. |
| LruCache.EvictionsAgreeExactly | labs/kv-cache/src/v2.rs:149-158 | Evicting before inserting and after inserting agree on all orders within the limit if and only if the limit is at least one. |
| LruCache.Cache.Set | labs/kv-cache/src/v2.rs:149-157 | The entry becomes the last in the order of use, the one unused for longest makes room when a new key finds none, and the log, if there is one, records the write and still extends the live entries. |
| LruCache.Cache.EvictLru | labs/kv-cache/src/v2.rs:218-228 | A scan in any order removes the entry that has been unused for longest. |
| LruCache.Cache.Get | labs/kv-cache/src/v2.rs:184-195 | Answers the value of an entry without a deadline or before it, and touches the entry; removes an expired one, without logging that. |
| LruCache.Cache.Del | labs/kv-cache/src/v2.rs:160-168 | Says whether an entry was there whose deadline, if any, had not come; an expired one is removed too, and not logged. |
| LruCache.Cache.Expire | labs/kv-cache/src/v2.rs:171-180 | Sets a new deadline for an entry whose deadline, if any, has not come, and for no other. |
| LruCache.Cache.Open | labs/kv-cache/src/v2.rs:103-144 | Values and order of use after replaying are exactly what the log ends with, and the deadline of every key counts from the replay of its last record. |
| LruRuns.ReopenAfter | labs/kv-cache/src/v2.rs:103-147 | A cache opened from the log of a run holds the live and the evicted entries; without deletions it is within its limit if and only if no more keys were put than fit. |
| LruDeadlines.AnsweredExactly | labs/kv-cache/src/v2.rs:160-195 | In a run with times a lookup, a deletion or a new deadline meets an entry if and only if a write of the key stands, neither deleted nor evicted since, and less time has passed since its last write or new deadline than the time to live given there, if any; a lookup answers the value of that write. |
| LruDeadlines.RunTimed | labs/kv-cache/src/v2.rs:149-228 | Every run of the cache with times that increase, writes with or without a time to live, and new deadlines keeps and answers what the specification says, and logs exactly the writes and what succeeded. |
| LruDeadlines.ReplayExactly | labs/kv-cache/src/v2.rs:103-147 | A replay of the log of any run brings back exactly the writes that were not written over or deleted while live, with their values, so also what expired or was evicted. |
| LruDeadlines.ExpiredComesBack | labs/kv-cache/src/v2.rs:103-195 | An entry that a lookup has found expired and removed is there again after a replay. |
| LruDeadlines.WithoutDeadlines | labs/kv-cache/src/v2.rs:149-228 | Runs without deadlines keep what the specification without times says. |
| LruCache.OldestIsFirst | labs/kv-cache/src/v2.rs:218-228 | With an increasing clock the entry with the least time stamp is the first in the order of use. |
| LruCache.EmbeddingCache.Get | labs/embedding-pipeline/src/v1_batched.py:72-82 | A hit is moved to the end of the order; hits and misses count up. |
| LruCache.EmbeddingCache.Put | labs/embedding-pipeline/src/v1_batched.py:84-93 | The entry goes to the end and the first makes room when there are too many. |
| ColumnScan.ScanLikeSelect | labs/columnar-storage/src/rowgroup.rs:146-217 | Writing rows into groups and scanning with pruning gives the rows, projected and in order, that the column store selects, if and only if the filter orders no floats or selects nothing. |
| ColumnScan.SkippedGroupsHoldNoMatch | labs/columnar-storage/src/rowgroup.rs:70-125 | A group that the statistics rule out has no row that matches. |
| ColumnScan.SkippedExactly | labs/columnar-storage/src/rowgroup.rs:70-125 | A group is skipped if and only if the filter is one comparison of a column with an integer, the column has integers in the group, and none of them is below it, or for equality all lie on one side of it. |
| ColumnScan.FloatOrderDiffersExactly | labs/columnar-storage/src/rowgroup.rs:229-246 | On a row, groups and column store differ if and only if the predicate tree orders floats anywhere and the row matches it. |
| ColumnScan.FloatOrderSelectsNothing | labs/columnar-storage/src/rowgroup.rs:229-246 | A predicate tree with an order of floats anywhere in it selects no row from groups. |
| ColumnScan.PushAddsRowExactly | labs/columnar-storage/src/rowgroup.rs:146-156 | Pushing name by name adds a row if and only if no column name occurs twice. |
| ColumnScan.ComputeStats | labs/columnar-storage/src/rowgroup.rs:39-65 | The statistics enclose every integer of the column tightly, and count the nulls. |
| ColumnScan.EvalInGroupIsMatch | labs/columnar-storage/src/rowgroup.rs:229-246 | The predicate on a group's columns is the predicate on the row. |
| ColumnScan.ParquetLiteWriter.WriteRow | labs/columnar-storage/src/rowgroup.rs:146-156 | Every row written is kept in order, over the boundary of a full group. |
| ColumnScan.ParquetLiteWriter.FlushGroup | labs/columnar-storage/src/rowgroup.rs:166-172 | The current rows become a finished group with statistics that enclose them, and an empty group begins. |
| ColumnScan.ParquetLiteWriter.Finish | labs/columnar-storage/src/rowgroup.rs:159-164 | The groups together hold exactly the rows written, none empty, none too large. |
| ColumnScan.Scan | labs/columnar-storage/src/rowgroup.rs:188-220 | The result is made of the matching rows of all groups, in order, with null for what is missing, and is empty for a filter that orders floats. |
| ColumnScan.ColumnStore.AppendRow | labs/columnar-storage/src/column.rs:47-53 | One more row, with null for a missing column and unknown names dropped. |
| ColumnScan.ColumnStore.Select | labs/columnar-storage/src/column.rs:67-95 | The result is made of exactly the matching rows, in order, each with the cells of the columns asked for, and null for a column or cell that is missing. |
| ColumnScan.MatchMeaning | labs/columnar-storage/src/column.rs:111-131 | A missing cell equals null alone; integers are ordered, floats are ordered, and nothing else is less than anything; a conjunction holds if both sides do. |
| ColumnScan.EvalIsMatch | labs/columnar-storage/src/column.rs:111-131 | The predicate on the columns is the predicate on the row. |
| BitPacking.RoundTrip | labs/columnar-storage/src/encoding.rs:93-133 | Unpacking what was packed gives the values back if and only if each is in range of the width, or the width is 64. |
| BitPacking.Bitpack | labs/columnar-storage/src/encoding.rs:93-111 | Exactly as many bytes as the bits need; bit for bit the values, highest bit first, then zeros. |
| BitPacking.Bitunpack | labs/columnar-storage/src/encoding.rs:116-133 | Each value is the number of its bits, as a signed 64-bit number. |
| BitPacking.ValueRoundTripExactly | labs/columnar-storage/src/encoding.rs:93-133 | What one value comes back as: itself exactly if it fits the width or the width is 64. |
| BitPacking.BitsNeededIsLeast | labs/columnar-storage/src/encoding.rs:81-87 | For a maximum that is not negative, the least positive width that holds it. |
| BitPacking.OneBitMore | labs/columnar-storage/src/encoding.rs:93-114 | Or-ing one bit into its byte changes no bit before it. |
| DocCodec.ValueRoundTrip | labs/document-db/src/v1.rs:53-235 | A nested value with keys of at most 255 bytes is read back wherever its encoding stands in a buffer, with its exact end. |
| DocCodec.FieldsRoundTrip | labs/document-db/src/v1.rs:206-229 | The fields of an object, inserted one by one, come back as the same object. |
| DocCodec.WriteValue | labs/document-db/src/v1.rs:53-99 | Appends exactly the value's encoding to the buffer. |
| DocCodec.ReadValue | labs/document-db/src/v1.rs:146-234 | Reads a value with loops over items and fields, or reports the first thing that is wrong. |
| DocStore.DocumentRoundTrip | labs/document-db/src/v1.rs:104-291 | A document's record is read back with its exact length, whatever follows. |
| DocStore.RecordAt | labs/document-db/src/v1.rs:392-413 | The record of every document in the file starts at its offset and ends at the next. |
| DocStore.DocumentStore.RebuildOffsets | labs/document-db/src/v1.rs:334-356 | Scanning a file of appended records finds exactly the offset map that the inserts had built, and a torn record at the end costs no other. |
| DocStore.TornIsUnreadable | labs/document-db/src/v1.rs:238-246 | No strict beginning of a record is read as one. |
| DocStore.DocumentStore.Insert | labs/document-db/src/v2.rs:110-145 | Appends the document with its new id; offsets and all indexes stay what a rebuild would give. |
| DocStore.DocumentStore.Get | labs/document-db/src/v2.rs:148-167 | The document with the id, read from its offset; none exactly if no document has it. |
| DocStore.DocumentStore.CreateIndex | labs/document-db/src/v2.rs:173-205 | An index built late is the one that the inserts would have built. |
| DocStore.DocumentStore.Find | labs/document-db/src/v2.rs:211-237 | The results are exactly the documents that have every field of the filter with its value, in the order of their insertion, whichever indexed field is used. |
| DocStore.DocumentStore.FullScan | labs/document-db/src/v2.rs:239-260 | The results are exactly the documents that have every field of the filter with its value, in the order of their insertion. |
| DocStore.EmptyFilterFindsAll | labs/document-db/src/lib.rs:30-53 | An empty filter finds every document. |
| DocStore.UnionFindsBoth | labs/document-db/src/lib.rs:30-53 | Two filters on different fields together find exactly what both find. |
| DocStore.DocumentStore.Open | labs/document-db/src/v2.rs:60-108 | Opening a file of records, the last of which may be torn, recovers all other offsets and no index. |
| DocStore.IndexHolds | labs/document-db/src/v2.rs:110-145 | Under every key an index holds the ids of the documents with that key, in order. |
| DocStore.SelectedWithKey | labs/document-db/src/v2.rs:211-237 | Restricting to the documents under the filter value's key loses no match, although values of different types share keys. |
| ColumnFile.FileRoundTrip | labs/columnar-storage/src/file.rs:201-332 | Reading a written file gives all groups back, with columns and sizes, in order and for any order of the columns within a group, as long as the lengths fit their fields. |
| ColumnFile.WriteFile | labs/columnar-storage/src/file.rs:201-247 | The stream is magic word, groups and footer, and the offsets returned are where the groups begin. |
| ColumnFile.ReadFile | labs/columnar-storage/src/file.rs:250-332 | The cursor loops read what the format says, or report the first thing that is wrong. |
| ColumnFile.OffsetsIncrease | labs/columnar-storage/src/file.rs:201-245 | The offsets strictly increase from 8 and stay before the footer, on which finding a group's end by its offset relies. |
| ColumnFile.GroupReadBack | labs/columnar-storage/src/file.rs:283-329 | Every group is cut out of the file at its offset and read back. |
| ColumnFile.GroupRoundTrip | labs/columnar-storage/src/file.rs:209-236 | A group is read back whatever the order of its columns. |
| ColumnFile.ValuesRoundTrip | labs/columnar-storage/src/file.rs:120-137 | A column's values are read back with the exact end. |

## Left out

- BTrees.BTree: machine widths of slot numbers and the lifetimes of borrowed results are not modelled; the binary search within a node is a function with its contract.
- BTreeFacts.LinksAreInverse: holds for v1 only; for v0 the one stale link is stated exactly instead.
- PagedBTrees.PagedBTree.Insert: requires that twice the pages and two stay below the null page number, since page numbers are 32 bits wide; the source has no check. After the loss of the root in a creating session only the loss is stated, because searches may then run in circles.
- PagedBTrees.PagedBTree.Open: takes what the file holds as ghost parameters; files that no store has written are covered by the decoder alone. A file whose length is not a multiple of the page size does not arise.
- PageFormat.DecodePage: the page number, which the source passes along into the node, is not part of the node here; I/O errors are left out.
- VmInterpreter.Vm.Run: runs for a given number of turns, since programs need not terminate; numbers are mathematical integers, so overflow is left out. A failed run is only known by its error, not by the fields left behind.
- VmTailCalls.TailCallMeansCallAndReturn: the conditions that bases are in order and the callee stays above its own base are part of it, since the code does not ensure them.
- The factorial program with a closure in its own upvalue: upvalues hold base values only, so it cannot run.
- GcIncremental.IncrementalGc.Step: outside a cycle nothing is claimed but what it does to the fields.
- The generational collector: promotion changes handles without updating references, so it has no safety to prove.
- LsmStore.Lsm.Put: requires lengths that fit their 32-bit fields; longer records are exactly those that do not come back (`RecordRoundTripExactly`).
- PagedRuns.RunReopened: stops where the page numbers might run out, which the source does not check.
- LsmReopening.Reopen: requires fewer than 10^9 tables, the exact range in which names sort like numbers; runs are shorter than that for the same reason. Crashes in the middle of a write are left out: a table file is written whole.
- LSM compaction and bloom filters, and the write-ahead log of the third B+ tree version, which logs no page contents.
- RespConnection.HandleConnection: reads are non-empty chunks of any size, where the program's buffer takes at most 1024 bytes at once; results for all cuttings hold for those too, but a stream whose error lies more than that behind a command may not come to the panic. Replies and the execution of commands are events, and the panic on draining a cleared buffer is an outcome. Running out of memory on a huge announced count is left out.
- The commands behind the RESP reader, sockets, threads and HTTP servers.
- Workflow.WorkflowGraph.AddNode: the registry of node types is a parameter; insertion order of dictionaries is kept as a sequence.
- WorkflowCache.CachingExecutor.Run: nodes are pure functions and hashes are collision-free on (type, parameters, inputs); results are values, so that sharing one result object between cache and caller is not modelled. JSON text and SHA-256 are left out.
- BatchEngine.BatchedEngine.Submit: requires distinct ids and a fresh request, as the engine's users provide them; the source does not check.
- BatchEngine.BatchedEngine.Generate: the model, sampling and temperature are an arbitrary token; prompts, tensors, statistics and time stamps are left out.
- BatchEngine.RequestQueue.Pop: the heap is a sequence of entries from which the least is taken; its internal layout is left out.
- LruCache.Cache.Set: each operation reads a clock that strictly increases; the number of syncs and the text of the log are left out. Asking whether a key exists or how long it has left would only add easy members.
- LruDeadlines.RunTimed: times strictly increase from call to call.
- LruCache.Cache.Open: deadlines after a replay count from the replay, since the log stores times to live only, so they are later than those before by what lay between.
- ColumnScan.ParquetLiteWriter.WriteRow: requires column names without repeats; with repeats the columns drift apart (`PushAddsRowExactly`). NaN and signed zeros are left out, floats being reals, as is the count of distinct values.
- BitPacking.Bitpack: or-ing a bit into a clear place is an addition; widths above 64 are left out.
- Run-length and dictionary encoding: pure list transformations that would only add easy members.
- ColumnFile.FileRoundTrip: lengths must fit their fields; statistics, which reading recomputes, are not part of the group here. Floats are their bit patterns.
- DocCodec.ValueRoundTrip: floats and numbers above the signed range are left out; reading a float tag is an error here. Text of JSON is left out.
- DocStore.DocumentStore.Insert: the new id is a parameter that no document has yet; documents are objects within the codec's range, and there is one collection.
- DocStore.DocumentStore.Open: the file is one that the store has written, whose last record may be torn; what later inserts behind a torn record come to is left out.
- Real models, diffusion, training, statistics, embeddings, agents and their prompts: floating point, randomness or libraries.
