/** The log-structured store: a memtable over table files. */
module LsmStore {
  import opened ByteStrings
  import opened Options
  import opened SortedEntries
  import opened LittleEndian
  import opened SsTable
  import opened LsmLayers
  import opened TableNames
  import opened Sequences

  const FLUSH_THRESHOLD_BYTES: nat := 4 * 1024 * 1024

  datatype Table = Table(name: Bytes, index: seq<IndexEntry>)

  // ---- Table files ----

  /** Write sorted records as a table, building the sparse index on the way. */
  method WriteSstable(records: seq<Record>) returns (file: Bytes, index: seq<IndexEntry>)
    ensures file == FileOf(records) && index == IndexOf(records)
  {
    hide EncodeRecord, EncodeData, EncodeIndexEntry, EncodeIndexEntries, ToBytes;
    var w: Bytes := [];
    index := [];
    var offset := 0;
    assert records[..0] == [] && index[..0] == [];
    NothingWritten();
    for i := 0 to |records|
      invariant w == EncodeData(records[..i]) && offset == |w|
      invariant |index| == (i + INDEX_STRIDE - 1) / INDEX_STRIDE
      invariant forall j :: 0 <= j < |index| ==>
                  index[j] == IndexEntry(records[j * INDEX_STRIDE].key, Offset(records, j * INDEX_STRIDE))
    {
      if i % INDEX_STRIDE == 0 {
        index := index + [IndexEntry(records[i].key, offset)];
      }
      var size;
      w, size := AppendRecord(w, records[i]);
      offset := offset + size;
      RecordWritten(records, i);
    }
    assert records[..|records|] == records;
    assert index == IndexOf(records);
    var indexOffset := offset;
    ghost var head := w + ToBytes(|index|, 4);
    w := w + ToBytes(|index|, 4);
    for i := 0 to |index|
      invariant w == head + EncodeIndexEntries(index[..i])
    {
      IndexEntryWritten(index, i);
      w := AppendIndexEntry(w, index[i]);
    }
    assert index[..|index|] == index;
    w := w + ToBytes(indexOffset, 8);
    file := w;
  }

  method AppendRecord(w: Bytes, r: Record) returns (w': Bytes, size: nat)
    ensures w' == w + EncodeRecord(r) && size == |EncodeRecord(r)|
  {
    w' := w + ToBytes(|r.key|, 4);
    w' := w' + r.key;
    size := 4 + |r.key|;
    match r.value {
      case Live(v) =>
        w' := w' + [TAG_LIVE];
        w' := w' + ToBytes(|v|, 4);
        w' := w' + v;
        size := size + 1 + 4 + |v|;
      case Tombstone =>
        w' := w' + [TAG_TOMBSTONE];
        size := size + 1;
    }
  }

  method AppendIndexEntry(w: Bytes, e: IndexEntry) returns (w': Bytes)
    ensures w' == w + EncodeIndexEntry(e)
  {
    w' := w + ToBytes(|e.key|, 4);
    w' := w' + e.key;
    w' := w' + ToBytes(e.offset, 8);
  }

  lemma NothingWritten()
    ensures EncodeData([]) == [] && EncodeIndexEntries([]) == []
  {
  }

  lemma RecordWritten(records: seq<Record>, i: nat)
    requires i < |records|
    ensures EncodeData(records[..i + 1]) == EncodeData(records[..i]) + EncodeRecord(records[i])
  {
    hide EncodeRecord;
    assert records[..i + 1] == records[..i] + [records[i]];
    DataConcat(records[..i], [records[i]]);
    assert [records[i]][1..] == [];
  }

  lemma {:induction false} IndexConcat(a: seq<IndexEntry>, b: seq<IndexEntry>)
    ensures EncodeIndexEntries(a + b) == EncodeIndexEntries(a) + EncodeIndexEntries(b)
  {
    if a == [] {
      assert a + b == b;
    } else {
      assert (a + b)[1..] == a[1..] + b;
      IndexConcat(a[1..], b);
    }
  }

  lemma IndexEntryWritten(index: seq<IndexEntry>, i: nat)
    requires i < |index|
    ensures EncodeIndexEntries(index[..i + 1]) == EncodeIndexEntries(index[..i]) + EncodeIndexEntry(index[i])
  {
    hide EncodeIndexEntry;
    assert index[..i + 1] == index[..i] + [index[i]];
    IndexConcat(index[..i], [index[i]]);
    assert [index[i]][1..] == [];
  }

  /** Search one table file: from the sparse index's offset forward. */
  method SstableGet(file: Bytes, index: seq<IndexEntry>, key: Bytes) returns (r: Result<Option<Value>>)
    ensures r == TableGet(file, index, key)
  {
    var startOffset := 0;
    if index != [] {
      var p := IndexCount(index, key);
      if p > 0 {
        startOffset := index[p - 1].offset;
      }
    }
    if |file| < 8 { return UnexpectedEof; }
    var fileSize := FromBytes(file[|file| - 8..]);
    var reader := if startOffset <= |file| then file[startOffset..] else [];
    var pos := startOffset;
    while pos < fileSize
      invariant TableGet(file, index, key) == Scan(reader, fileSize - pos, key)
      decreases |reader|
    {
      match ReadRecord(reader) {
        case AtEnd => break;
        case Broken => return UnexpectedEof;
        case Got(record, size) =>
          reader := reader[size..];
          pos := pos + size;
          if record.key == key {
            return Ok(Some(record.value));
          } else if Less(key, record.key) {
            break;
          }
      }
    }
    r := Ok(None);
  }

  method LoadTableIndex(file: Bytes) returns (r: Result<seq<IndexEntry>>)
    ensures r == LoadIndex(file)
  {
    if |file| < 8 { return Ok([]); }
    var indexOffset := FromBytes(file[|file| - 8..]);
    if indexOffset > |file| || |file| - indexOffset < 4 { return UnexpectedEof; }
    var count := FromBytes(file[indexOffset..indexOffset + 4]);
    var reader := file[indexOffset + 4..];
    var index: seq<IndexEntry> := [];
    ghost var all := reader;
    ghost var result := ReadIndexEntries(all, count);
    assert result.Ok? ==> index + result.value == result.value;
    for i := 0 to count
      invariant match ReadIndexEntries(reader, count - i)
                case Ok(rest) => ReadIndexEntries(all, count) == Ok(index + rest)
                case UnexpectedEof => ReadIndexEntries(all, count) == UnexpectedEof
    {
      if |reader| < 4 { return UnexpectedEof; }
      var klen := FromBytes(reader[..4]);
      if |reader| < 4 + klen + 8 { return UnexpectedEof; }
      var e := IndexEntry(reader[4..4 + klen], FromBytes(reader[4 + klen..4 + klen + 8]));
      ghost var rest := ReadIndexEntries(reader[4 + klen + 8..], count - i - 1);
      assert rest.Ok? ==> index + ([e] + rest.value) == (index + [e]) + rest.value;
      index := index + [e];
      reader := reader[4 + klen + 8..];
    }
    assert index + [] == index;
    r := Ok(index);
  }

  // ---- The store ----

  /** A table of the store: named by its number, with the index and the file of its
      records. */
  ghost predicate TableOk(dir: map<Bytes, Bytes>, t: Table, records: seq<Record>, seqNo: nat) {
    && t == Table(FileName(seqNo), IndexOf(records))
    && Sorted(records) && Fits(records)
    && t.name in dir && dir[t.name] == FileOf(records)
  }

  /** The tables are numbered downwards from the newest to 1, and the directory holds
      their files and no others. */
  ghost predicate TablesOk(dir: map<Bytes, Bytes>, sstables: seq<Table>, layers: seq<seq<Record>>, nextSeq: nat) {
    && nextSeq == |sstables| + 1 && |layers| == |sstables|
    && (forall i :: 0 <= i < |sstables| ==> TableOk(dir, sstables[i], layers[i], nextSeq - 1 - i))
    && (forall name :: name in dir ==> exists i :: 0 <= i < |sstables| && sstables[i].name == name)
  }

  ghost predicate MemtableOk(memtable: seq<Record>, bytes: nat) {
    && Sorted(memtable)
    && (forall i :: 0 <= i < |memtable| ==> RecordFits(memtable[i]))
    && Weight(memtable) <= bytes && (memtable == [] ==> bytes == 0)
  }

  lemma {:induction false} FileNameInjective(m: nat, n: nat)
    requires FileName(m) == FileName(n)
    ensures m == n
  {
    ValueOfStem(m);
    ValueOfStem(n);
    assert |Stem(m)| == |Stem(n)|;
    assert Stem(m) == FileName(m)[..|Stem(m)|] == FileName(n)[..|Stem(n)|] == Stem(n);
  }

  /** Adding the file of a new table. */
  lemma {:induction false} TableAdded(dir: map<Bytes, Bytes>, sstables: seq<Table>, layers: seq<seq<Record>>, nextSeq: nat, records: seq<Record>)
    requires TablesOk(dir, sstables, layers, nextSeq) && Sorted(records) && Fits(records)
    ensures TablesOk(dir[FileName(nextSeq) := FileOf(records)],
                     [Table(FileName(nextSeq), IndexOf(records))] + sstables, [records] + layers, nextSeq + 1)
  {
    hide FileName, FileOf, IndexOf, Fits;
    var dir' := dir[FileName(nextSeq) := FileOf(records)];
    var ss := [Table(FileName(nextSeq), IndexOf(records))] + sstables;
    forall i | 0 <= i < |ss| ensures TableOk(dir', ss[i], ([records] + layers)[i], nextSeq - i) {
      if i > 0 {
        assert TableOk(dir, sstables[i - 1], layers[i - 1], nextSeq - i);
        if FileName(nextSeq) == FileName(nextSeq - i) { FileNameInjective(nextSeq, nextSeq - i); }
      }
    }
    forall name | name in dir' ensures exists i :: 0 <= i < |ss| && ss[i].name == name {
      if name == FileName(nextSeq) {
        assert ss[0].name == name;
      } else {
        var i :| 0 <= i < |sstables| && sstables[i].name == name;
        assert ss[i + 1].name == name;
      }
    }
  }

  class Lsm {
    /** The files of the store's directory, by name. */
    var dir: map<Bytes, Bytes>
    /** The memtable in key order. */
    var memtable: seq<Record>
    var memtableBytes: nat
    /** Newest first. */
    var sstables: seq<Table>
    var nextSeq: nat

    /** The records of each table, newest first. */
    ghost var layers: seq<seq<Record>>

    ghost predicate Valid()
      reads this
    {
      && TablesOk(dir, sstables, layers, nextSeq)
      && MemtableOk(memtable, memtableBytes) && memtableBytes < FLUSH_THRESHOLD_BYTES
    }

    /** The map that the store implements. */
    ghost function Model(): map<Bytes, Bytes>
      reads this
    {
      Overlay(ModelOf(layers), memtable)
    }

    /** What a process that reopens the directory would find. */
    ghost function Flushed(): map<Bytes, Bytes>
      reads this
    {
      ModelOf(layers)
    }

    constructor (dir: map<Bytes, Bytes>, sstables: seq<Table>, nextSeq: nat)
      ensures this.dir == dir && this.sstables == sstables && this.nextSeq == nextSeq
      ensures memtable == [] && memtableBytes == 0 && layers == []
    {
      this.dir, this.sstables, this.nextSeq := dir, sstables, nextSeq;
      memtable, memtableBytes := [], 0;
      layers := [];
    }

    method Put(key: Bytes, value: Bytes)
      requires Valid() && RecordFits(Entry(key, Live(value)))
      modifies this
      ensures Valid()
      ensures Model() == old(Model())[key := value]
      ensures var t := SortedEntries.Put(old(memtable), key, Live(value));
              if old(memtableBytes) + |key| + |value| >= FLUSH_THRESHOLD_BYTES
              then memtable == [] && memtableBytes == 0 && layers == [t] + old(layers)
              else memtable == t && memtableBytes == old(memtableBytes) + |key| + |value| && layers == old(layers)
    {
      hide TablesOk, Overlay, ModelOf, Weight, SortedEntries.Put;
      OverlayPut(ModelOf(layers), memtable, key, value);
      Written(memtable, memtableBytes, key, Live(value));
      memtableBytes := memtableBytes + |key| + |value|;
      memtable := SortedEntries.Put(memtable, key, Live(value));
      MaybeFlush();
    }

    method Delete(key: Bytes)
      requires Valid() && |key| < TWO_TO_THE_32
      modifies this
      ensures Valid()
      ensures Model() == old(Model()) - {key}
      ensures var t := SortedEntries.Put(old(memtable), key, Tombstone);
              if old(memtableBytes) + |key| >= FLUSH_THRESHOLD_BYTES
              then memtable == [] && memtableBytes == 0 && layers == [t] + old(layers)
              else memtable == t && memtableBytes == old(memtableBytes) + |key| && layers == old(layers)
    {
      hide TablesOk, Overlay, ModelOf, Weight, SortedEntries.Put;
      OverlayDelete(ModelOf(layers), memtable, key);
      Written(memtable, memtableBytes, key, Tombstone);
      memtableBytes := memtableBytes + |key|;
      memtable := SortedEntries.Put(memtable, key, Tombstone);
      MaybeFlush();
    }

    /** Memtable first, then the tables from the newest; the first match wins. */
    method Get(key: Bytes) returns (r: Result<Option<Bytes>>)
      requires Valid()
      ensures r == Ok(if key in Model() then Some(Model()[key]) else None)
    {
      hide TablesOk, TableOk, Overlay, ModelOf, TableGet, MemtableOk;
      OverlayAnswer(ModelOf(layers), memtable, key);
      NoLayers();
      var v := Lookup(memtable, key);
      if v.Some? {
        return Ok(BytesOf(v.value));
      }
      TableCount();
      assert layers[0..] == layers;
      for i := 0 to |sstables|
        invariant Answer(ModelOf(layers), key) == Answer(ModelOf(layers[i..]), key)
      {
        TableAnswers(i, key);
        var sst := sstables[i];
        var found := SstableGet(dir[sst.name], sst.index, key);
        match found {
          case UnexpectedEof => return UnexpectedEof;
          case Ok(Some(value)) => return Ok(BytesOf(value));
          case Ok(None) =>
        }
      }
      r := Ok(None);
    }

    /** What the search of table `i` finds, and what that means for the layers from `i`. */
    lemma TableAnswers(i: nat, key: Bytes)
      requires TablesOk(dir, sstables, layers, nextSeq) && i < |sstables|
      ensures |layers| == |sstables| && sstables[i].name in dir
      ensures TableGet(dir[sstables[i].name], sstables[i].index, key) == Ok(Lookup(layers[i], key))
      ensures Answer(ModelOf(layers[i..]), key) ==
              match Lookup(layers[i], key)
              case Some(v) => BytesOf(v)
              case None => Answer(ModelOf(layers[i + 1..]), key)
    {
      assert TableOk(dir, sstables[i], layers[i], nextSeq - 1 - i);
      TableGetIsLookup(layers[i], key);
      OverlayAnswer(ModelOf(layers[i + 1..]), layers[i], key);
      assert layers[i..][1..] == layers[i + 1..];
    }

    lemma TableCount()
      requires TablesOk(dir, sstables, layers, nextSeq)
      ensures |layers| == |sstables| && layers[|sstables|..] == []
    {
    }

    lemma NoLayers()
      ensures ModelOf([]) == map[]
    {
    }

    /** Flush even below the threshold. */
    method Flush()
      requires Valid()
      modifies this
      ensures Valid() && Model() == old(Model())
      ensures memtable == [] && memtableBytes == 0 && Flushed() == Model()
      ensures layers == if old(memtable) == [] then old(layers) else [old(memtable)] + old(layers)
    {
      hide TablesOk, SortedEntries.Put;
      if memtable == [] {
        return;
      }
      StillFits(memtable, memtable, memtableBytes);
      FlushMemtable();
    }

    method SstableCount() returns (n: nat)
      ensures n == |sstables|
    {
      n := |sstables|;
    }

    method MaybeFlush()
      requires TablesOk(dir, sstables, layers, nextSeq)
      requires MemtableOk(memtable, memtableBytes) && Fits(memtable)
      modifies this
      ensures Valid() && Model() == old(Model())
      ensures if old(memtableBytes) >= FLUSH_THRESHOLD_BYTES
              then memtable == [] && memtableBytes == 0 && layers == [old(memtable)] + old(layers)
              else memtable == old(memtable) && memtableBytes == old(memtableBytes) && layers == old(layers)
    {
      hide TablesOk, Fits;
      if memtableBytes >= FLUSH_THRESHOLD_BYTES {
        FlushMemtable();
      }
    }

    method FlushMemtable()
      requires TablesOk(dir, sstables, layers, nextSeq)
      requires Sorted(memtable) && Fits(memtable)
      modifies this
      ensures Valid()
      ensures layers == [old(memtable)] + old(layers) && memtable == [] && memtableBytes == 0
      ensures Model() == old(Model()) && Flushed() == Model()
    {
      hide TablesOk, Fits, FileOf, IndexOf, FileName;
      TableAdded(dir, sstables, layers, nextSeq, memtable);
      assert ([memtable] + layers)[1..] == layers;
      var seqNo := nextSeq;
      nextSeq := nextSeq + 1;
      var name := FileName(seqNo);
      var file, index := WriteSstable(memtable);
      dir := dir[name := file];
      sstables := [Table(name, index)] + sstables;
      layers := [memtable] + layers;
      memtable := [];
      memtableBytes := 0;
    }
  }

  /** A memtable with one more record is still sorted, weighed and small enough to write. */
  lemma Written(s: seq<Record>, bytes: nat, key: Bytes, value: Value)
    requires MemtableOk(s, bytes) && bytes < FLUSH_THRESHOLD_BYTES && RecordFits(Entry(key, value))
    ensures var t := Put(s, key, value);
            MemtableOk(t, bytes + RecordWeight(Entry(key, value))) && Fits(t)
  {
    hide Put;
    var t := Put(s, key, value);
    PutRemoveContent(s, key, value);
    WeightOfPut(s, key, value);
    PutFits(s, key, value);
    StillFits(s, t, bytes);
  }
}
