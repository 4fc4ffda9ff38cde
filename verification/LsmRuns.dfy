/** Runs of the store, with processes that end and open the directory again. */
module LsmRuns {
  import opened ByteStrings
  import opened Options
  import opened SortedEntries
  import opened LittleEndian
  import opened SsTable
  import opened LsmLayers
  import opened LsmStore
  import opened LsmReopening
  import opened TableNames

  datatype Op =
    | PutOp(key: Bytes, value: Bytes)
    | DeleteOp(key: Bytes)
    | GetOp(key: Bytes)
    | FlushOp
    | ReopenOp

  datatype Answer = Done | Looked(value: Option<Bytes>) | Failed

  /** What a store answers with, what is safe in its tables, and how many bytes are not. */
  datatype Kept = Kept(model: map<Bytes, Bytes>, flushed: map<Bytes, Bytes>, bytes: nat)

  /** A write of `size` bytes that leaves `model`; at the threshold everything is flushed. */
  function Wrote(s: Kept, model: map<Bytes, Bytes>, size: nat): Kept {
    if s.bytes + size >= FLUSH_THRESHOLD_BYTES then Kept(model, model, 0)
    else Kept(model, s.flushed, s.bytes + size)
  }

  function Did(s: Kept, op: Op): Kept {
    match op
    case PutOp(key, value) => Wrote(s, s.model[key := value], |key| + |value|)
    case DeleteOp(key) => Wrote(s, s.model - {key}, |key|)
    case GetOp(_) => s
    case FlushOp => Kept(s.model, s.model, 0)
    case ReopenOp => Kept(s.flushed, s.flushed, 0)
  }

  function After(ops: seq<Op>): Kept {
    if ops == [] then Kept(map[], map[], 0) else Did(After(ops[..|ops| - 1]), ops[|ops| - 1])
  }

  function AnswerOf(s: Kept, op: Op): Answer {
    match op
    case GetOp(key) => Looked(if key in s.model then Some(s.model[key]) else None)
    case _ => Done
  }

  predicate FitsStore(op: Op) {
    match op
    case PutOp(key, value) => |key| < TWO_TO_THE_32 && |value| < TWO_TO_THE_32
    case DeleteOp(key) => |key| < TWO_TO_THE_32
    case _ => true
  }

  ghost predicate Keeps(store: Lsm, s: Kept)
    reads store
  {
    store.Valid() && store.Model() == s.model && store.Flushed() == s.flushed && store.memtableBytes == s.bytes
  }

  /** An empty directory opens as an empty store. */
  method OpenNew() returns (store: Lsm)
    ensures fresh(store) && Keeps(store, Kept(map[], map[], 0)) && store.nextSeq == 1
  {
    hide OpenTables, MaxSeq, SortedTableNames, Overlay;
    NothingListed();
    NothingInMemory(map[]);
    NothingLayered();
    var r := Open(map[], []);
    store := r.value;
  }

  lemma NothingListed()
    ensures Lists([], map[]) && SortedTableNames([]) == [] && OpenTables(map[], []) == Ok([]) && MaxSeq([]) == 0
    ensures Sequences.Reversed<Table>([]) == []
  {
  }

  lemma NothingLayered()
    ensures ModelOf([]) == map[] && TablesOk(map[], [], [], 1)
  {
  }

  /** The names of a directory's files, in any order. */
  method ListNames(dir: map<Bytes, Bytes>) returns (listing: seq<Bytes>)
    ensures Lists(listing, dir)
  {
    listing := [];
    var left := dir.Keys;
    while left != {}
      invariant left <= dir.Keys && Distinct(listing)
      invariant forall name :: name in listing <==> name in dir && name !in left
      decreases |left|
    {
      var name :| name in left;
      assert forall i :: 0 <= i < |listing| ==> listing[i] in listing;
      left := left - {name};
      listing := listing + [name];
    }
  }

  /** One operation; reopening gives another store over the same files. */
  method Perform(store: Lsm, op: Op, ghost s: Kept) returns (next: Lsm, answer: Answer)
    requires Keeps(store, s) && FitsStore(op) && store.nextSeq <= NAMES_IN_ORDER
    modifies store
    ensures next == store || fresh(next)
    ensures Keeps(next, Did(s, op)) && answer == AnswerOf(s, op) && next.nextSeq <= old(store.nextSeq) + 1
  {
    hide Overlay, ModelOf, Weight, Put;
    NothingInMemory(store.Flushed());
    next, answer := store, Done;
    match op {
      case PutOp(key, value) =>
        store.Put(key, value);
        NothingInMemory(store.Flushed());
      case DeleteOp(key) =>
        store.Delete(key);
        NothingInMemory(store.Flushed());
      case GetOp(key) =>
        var r := store.Get(key);
        answer := if r.Ok? then Looked(r.value) else Failed;
      case FlushOp =>
        store.Flush();
      case ReopenOp =>
        var listing := ListNames(store.dir);
        var r := Reopen(store, listing);
        next := r.value;
    }
  }

  /** Any run on a new directory: each lookup finds the last value put and not deleted, where
      reopening takes back exactly what was written since the last flush, explicit or by the
      threshold. */
  method RunFromNew(ops: seq<Op>) returns (answers: seq<Answer>)
    requires |ops| < NAMES_IN_ORDER && forall i :: 0 <= i < |ops| ==> FitsStore(ops[i])
    ensures |answers| == |ops| && forall i :: 0 <= i < |ops| ==> answers[i] == AnswerOf(After(ops[..i]), ops[i])
  {
    hide Keeps, Did, AnswerOf, FitsStore;
    var store := OpenNew();
    answers := [];
    assert ops[..0] == [];
    for i := 0 to |ops|
      invariant fresh(store) && Keeps(store, After(ops[..i])) && store.nextSeq <= i + 1
      invariant |answers| == i && forall j :: 0 <= j < i ==> answers[j] == AnswerOf(After(ops[..j]), ops[j])
    {
      assert ops[..i + 1][..i] == ops[..i];
      var answer;
      store, answer := Perform(store, ops[i], After(ops[..i]));
      answers := answers + [answer];
    }
  }
}
