/** The on-disk table format: what is written, what is read back, and why a search from
    a sparse index finds what a lookup in the sorted entries finds. */
module SsTable {
  import opened ByteStrings
  import opened Options
  import opened SortedEntries
  import opened LittleEndian

  datatype Value = Live(bytes: Bytes) | Tombstone

  type Record = Entry<Value>

  datatype Result<+T> = Ok(value: T) | UnexpectedEof

  datatype IndexEntry = IndexEntry(key: Bytes, offset: nat)

  const INDEX_STRIDE: nat := 16
  const TAG_LIVE: byte := 0x01
  const TAG_TOMBSTONE: byte := 0xFF

  // ---- Writing ----

  function EncodeRecord(r: Record): Bytes {
    ToBytes(|r.key|, 4) + r.key +
    match r.value
    case Live(v) => [TAG_LIVE] + ToBytes(|v|, 4) + v
    case Tombstone => [TAG_TOMBSTONE]
  }

  function EncodeData(records: seq<Record>): Bytes {
    if records == [] then [] else EncodeRecord(records[0]) + EncodeData(records[1..])
  }

  /** Where record `i` starts. */
  function Offset(records: seq<Record>, i: nat): nat
    requires i <= |records|
  {
    |EncodeData(records[..i])|
  }

  /** One index entry for every stride of records. */
  function IndexOf(records: seq<Record>): seq<IndexEntry> {
    seq((|records| + INDEX_STRIDE - 1) / INDEX_STRIDE, i requires 0 <= i < (|records| + INDEX_STRIDE - 1) / INDEX_STRIDE =>
      IndexEntry(records[i * INDEX_STRIDE].key, Offset(records, i * INDEX_STRIDE)))
  }

  function EncodeIndexEntry(e: IndexEntry): Bytes {
    ToBytes(|e.key|, 4) + e.key + ToBytes(e.offset, 8)
  }

  function EncodeIndexEntries(index: seq<IndexEntry>): Bytes {
    if index == [] then [] else EncodeIndexEntry(index[0]) + EncodeIndexEntries(index[1..])
  }

  /** The whole file: data, index, footer. */
  function FileOf(records: seq<Record>): Bytes {
    var data, index := EncodeData(records), IndexOf(records);
    data + (ToBytes(|index|, 4) + EncodeIndexEntries(index)) + ToBytes(|data|, 8)
  }

  // ---- Reading ----

  datatype Read = Got(record: Record, size: nat) | AtEnd | Broken

  /** Read one record from the bytes that remain. Running out inside the first length
      field counts as the end of the table, anywhere else as an error. */
  function ReadRecord(b: Bytes): (r: Read)
    ensures r.Got? ==> 0 < r.size <= |b|
  {
    if |b| < 4 then AtEnd
    else
      var klen := FromBytes(b[..4]);
      if |b| < 4 + klen + 1 then Broken
      else
        var key := b[4..4 + klen];
        if b[4 + klen] != TAG_LIVE then Got(Entry(key, Tombstone), 4 + klen + 1)
        else
          var at := 4 + klen + 1;
          if |b| < at + 4 then Broken
          else
            var vlen := FromBytes(b[at..at + 4]);
            if |b| < at + 4 + vlen then Broken
            else Got(Entry(key, Live(b[at + 4..at + 4 + vlen])), at + 4 + vlen)
  }

  /** Scan forward for `key` through the `left` bytes of data at the start of `b`. */
  function Scan(b: Bytes, left: int, key: Bytes): Result<Option<Value>>
    decreases |b|
  {
    if left <= 0 then Ok(None)
    else match ReadRecord(b)
      case AtEnd => Ok(None)
      case Broken => UnexpectedEof
      case Got(r, size) =>
        if r.key == key then Ok(Some(r.value))
        else if Less(key, r.key) then Ok(None)
        else Scan(b[size..], left - size, key)
  }

  /** How many index keys at the front are at most `key`. */
  function IndexCount(index: seq<IndexEntry>, key: Bytes): (p: nat)
    ensures p <= |index|
    ensures forall i :: 0 <= i < p ==> AtMost(index[i].key, key)
    ensures p < |index| ==> Less(key, index[p].key)
  {
    if index == [] || Less(key, index[0].key) then 0 else 1 + IndexCount(index[1..], key)
  }

  function StartOffset(index: seq<IndexEntry>, key: Bytes): nat {
    var p := IndexCount(index, key);
    if p == 0 then 0 else index[p - 1].offset
  }

  /** Look `key` up in one table file. */
  function TableGet(file: Bytes, index: seq<IndexEntry>, key: Bytes): Result<Option<Value>> {
    if |file| < 8 then UnexpectedEof
    else
      var start, end := StartOffset(index, key), FromBytes(file[|file| - 8..]);
      var b := if start <= |file| then file[start..] else [];
      Scan(b, end - start, key)
  }

  function ReadIndexEntries(b: Bytes, count: nat): Result<seq<IndexEntry>>
    decreases count
  {
    if count == 0 then Ok([])
    else if |b| < 4 then UnexpectedEof
    else
      var klen := FromBytes(b[..4]);
      if |b| < 4 + klen + 8 then UnexpectedEof
      else
        var e := IndexEntry(b[4..4 + klen], FromBytes(b[4 + klen..4 + klen + 8]));
        match ReadIndexEntries(b[4 + klen + 8..], count - 1)
        case Ok(rest) => Ok([e] + rest)
        case UnexpectedEof => UnexpectedEof
  }

  /** The index of a table file; a file too short for a footer has an empty one. */
  function LoadIndex(file: Bytes): Result<seq<IndexEntry>> {
    if |file| < 8 then Ok([])
    else
      var start := FromBytes(file[|file| - 8..]);
      if start > |file| || |file| - start < 4 then UnexpectedEof
      else ReadIndexEntries(file[start + 4..], FromBytes(file[start..start + 4]))
  }

  // ---- Limits ----

  /** Both length fields of a record are four bytes wide. */
  predicate RecordFits(r: Record) {
    |r.key| < TWO_TO_THE_32 && (r.value.Live? ==> |r.value.bytes| < TWO_TO_THE_32)
  }

  ghost predicate Fits(records: seq<Record>) {
    && (forall i :: 0 <= i < |records| ==> RecordFits(records[i]))
    && |records| < TWO_TO_THE_32
    && |EncodeData(records)| < TWO_TO_THE_64
  }

  // ---- Records ----

  lemma RecordSlices(r: Record, rest: Bytes)
    ensures var b, k := EncodeRecord(r) + rest, |r.key|;
            && |b| >= 4 + k + 1
            && b[..4] == ToBytes(k, 4) && b[4..4 + k] == r.key
            && match r.value
               case Tombstone => b[4 + k] == TAG_TOMBSTONE && |EncodeRecord(r)| == 4 + k + 1
               case Live(v) =>
                 && b[4 + k] == TAG_LIVE && |EncodeRecord(r)| == 4 + k + 1 + 4 + |v|
                 && b[4 + k + 1..4 + k + 5] == ToBytes(|v|, 4)
                 && b[4 + k + 5..4 + k + 5 + |v|] == v
  {
    hide ToBytes;
  }

  /** A record followed by anything is read back, with its exact size, if and only if its
      lengths fit their fields. */
  lemma RecordRoundTripExactly(r: Record, rest: Bytes)
    ensures ReadRecord(EncodeRecord(r) + rest) == Got(r, |EncodeRecord(r)|) <==> RecordFits(r)
  {
    RecordSlices(r, rest);
    Length32Exactly(|r.key|);
    if r.value.Live? { Length32Exactly(|r.value.bytes|); }
    hide ToBytes, FromBytes;
  }

  lemma {:induction false} DataConcat(a: seq<Record>, b: seq<Record>)
    ensures EncodeData(a + b) == EncodeData(a) + EncodeData(b)
  {
    if a == [] {
      assert a + b == b;
    } else {
      assert (a + b)[1..] == a[1..] + b;
      DataConcat(a[1..], b);
    }
  }

  lemma OffsetSplits(records: seq<Record>, i: nat)
    requires i <= |records|
    ensures EncodeData(records) == EncodeData(records[..i]) + EncodeData(records[i..])
  {
    assert records == records[..i] + records[i..];
    DataConcat(records[..i], records[i..]);
  }

  // ---- Scanning ----

  /** A scan over the bytes of sorted records answers like a lookup among them. */
  lemma {:induction false} ScanIsLookup(records: seq<Record>, rest: Bytes, key: Bytes)
    requires Sorted(records) && forall i :: 0 <= i < |records| ==> RecordFits(records[i])
    ensures Scan(EncodeData(records) + rest, |EncodeData(records)|, key) == Ok(Lookup(records, key))
  {
    hide ToBytes, FromBytes, EncodeRecord, ReadRecord;
    if records != [] {
      var r, tail := records[0], records[1..];
      var b := EncodeData(records) + rest;
      var size := |EncodeRecord(r)|;
      assert b == EncodeRecord(r) + (EncodeData(tail) + rest);
      RecordRoundTripExactly(r, EncodeData(tail) + rest);
      assert b[size..] == EncodeData(tail) + rest;
      if r.key != key {
        if Less(key, r.key) {
          AllAboveTail(records, key);
          FiltersOfAllAbove(records, key);
        } else {
          ScanIsLookup(tail, rest, key);
        }
      }
    }
  }

  lemma AllAboveTail(records: seq<Record>, key: Bytes)
    requires Sorted(records) && records != [] && Less(key, records[0].key)
    ensures AllAbove(records, key)
  {
    forall i | 0 <= i < |records| ensures Less(key, records[i].key) {
      if i > 0 { LessTransitive(key, records[0].key, records[i].key); }
    }
  }

  /** The sparse index never points past the key. */
  lemma StartIsBelow(records: seq<Record>, key: Bytes) returns (j: nat)
    requires Sorted(records)
    ensures j <= |records| && StartOffset(IndexOf(records), key) == Offset(records, j)
    ensures AllBelow(records[..j], key)
  {
    var p := IndexCount(IndexOf(records), key);
    if p == 0 {
      j := 0;
    } else {
      j := (p - 1) * INDEX_STRIDE;
      LessIsStrictTotalOrder();
      forall i | 0 <= i < j ensures Less(records[i].key, key) {
        assert Less(records[i].key, records[j].key);
        assert AtMost(IndexOf(records)[p - 1].key, key);
      }
    }
  }

  lemma {:induction false} FooterOf(records: seq<Record>)
    requires Fits(records)
    ensures var file := FileOf(records);
            |file| >= 8 && FromBytes(file[|file| - 8..]) == |EncodeData(records)| <= |file| - 8
  {
    var file := FileOf(records);
    assert file[|file| - 8..] == ToBytes(|EncodeData(records)|, 8);
    Offset64(|EncodeData(records)|);
  }

  /** A search through the sparse index and the written bytes is a lookup in the records. */
  lemma {:induction false} TableGetIsLookup(records: seq<Record>, key: Bytes)
    requires Sorted(records) && Fits(records)
    ensures TableGet(FileOf(records), IndexOf(records), key) == Ok(Lookup(records, key))
  {
    hide IndexOf, StartOffset, ToBytes, FromBytes, EncodeIndexEntries, EncodeData, Scan;
    var file, data := FileOf(records), EncodeData(records);
    FooterOf(records);
    var j := StartIsBelow(records, key);
    OffsetSplits(records, j);
    var tail := ToBytes(|IndexOf(records)|, 4) + EncodeIndexEntries(IndexOf(records)) + ToBytes(|data|, 8);
    assert file[Offset(records, j)..] == EncodeData(records[j..]) + tail;
    ScanIsLookup(records[j..], tail, key);
    assert records == records[..j] + records[j..];
    FiltersOfAllBelow(records[..j], key);
    LookupConcat(records[..j], records[j..], key);
  }

  // ---- The index section ----

  predicate IndexEntryFits(e: IndexEntry) {
    |e.key| < TWO_TO_THE_32 && e.offset < TWO_TO_THE_64
  }

  lemma IndexEntrySlices(e: IndexEntry, rest: Bytes)
    ensures var b, k := EncodeIndexEntry(e) + rest, |e.key|;
            && |b| >= 4 + k + 8 && b[..4] == ToBytes(k, 4) && b[4..4 + k] == e.key
            && b[4 + k..4 + k + 8] == ToBytes(e.offset, 8) && b[4 + k + 8..] == rest
  {
    hide ToBytes;
    ThreeParts(ToBytes(|e.key|, 4), e.key, ToBytes(e.offset, 8), rest);
  }

  lemma ThreeParts(a: Bytes, b: Bytes, c: Bytes, rest: Bytes)
    ensures var s := a + b + c + rest;
            && s[..|a|] == a && s[|a|..|a| + |b|] == b
            && s[|a| + |b|..|a| + |b| + |c|] == c && s[|a| + |b| + |c|..] == rest
  {
    assert a + b + c + rest == a + (b + (c + rest));
  }

  lemma {:induction false} IndexRoundTrip(index: seq<IndexEntry>, rest: Bytes)
    requires forall i :: 0 <= i < |index| ==> IndexEntryFits(index[i])
    ensures ReadIndexEntries(EncodeIndexEntries(index) + rest, |index|) == Ok(index)
  {
    hide ToBytes, FromBytes, EncodeIndexEntry;
    if index != [] {
      var e, tail := index[0], index[1..];
      var b := EncodeIndexEntries(index) + rest;
      assert b == EncodeIndexEntry(e) + (EncodeIndexEntries(tail) + rest);
      IndexEntrySlices(e, EncodeIndexEntries(tail) + rest);
      Length32Exactly(|e.key|);
      Offset64(e.offset);
      IndexRoundTrip(tail, rest);
      assert b[4 + |e.key| + 8..] == EncodeIndexEntries(tail) + rest;
      assert [e] + tail == index;
    }
  }

  lemma IndexFits(records: seq<Record>)
    requires Fits(records)
    ensures |IndexOf(records)| < TWO_TO_THE_32
    ensures forall i :: 0 <= i < |IndexOf(records)| ==> IndexEntryFits(IndexOf(records)[i])
  {
    forall i | 0 <= i < |IndexOf(records)| ensures IndexEntryFits(IndexOf(records)[i]) {
      assert RecordFits(records[i * INDEX_STRIDE]);
      OffsetSplits(records, i * INDEX_STRIDE);
    }
  }

  /** Loading a written file gives back the index that was built while writing it. */
  lemma {:induction false} LoadIndexOfFile(records: seq<Record>)
    requires Fits(records)
    ensures LoadIndex(FileOf(records)) == Ok(IndexOf(records))
  {
    hide IndexOf, ToBytes, FromBytes, EncodeIndexEntries, EncodeData, ReadIndexEntries, Fits;
    var file, data, index := FileOf(records), EncodeData(records), IndexOf(records);
    FooterOf(records);
    IndexFits(records);
    Length32Exactly(|index|);
    assert file[|data|..|data| + 4] == ToBytes(|index|, 4);
    assert file[|data| + 4..] == EncodeIndexEntries(index) + ToBytes(|data|, 8);
    IndexRoundTrip(index, ToBytes(|data|, 8));
  }
}
