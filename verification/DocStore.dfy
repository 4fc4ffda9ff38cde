/** A collection of documents in an append-only file, with an offset for every id and
    indexes on fields. */
module DocStore {
  import opened ByteStrings
  import opened Options
  import opened SortedEntries
  import opened LittleEndian
  import opened Utf8
  import opened DocCodec
  import opened Decimal

  type Fields = seq<Entry<Value>>

  datatype Doc = Doc(id: Bytes, fields: Fields)

  /** "_id" */
  const ID_KEY: Bytes := [95, 105, 100]

  // ---- Document records ----

  function Payload(d: Doc): Bytes {
    [|d.id| % 256] + d.id + ToBytes(|d.fields|, 2) + EncodeFields(d.fields)
  }

  function EncodeDocument(d: Doc): Bytes {
    ToBytes(|Payload(d)|, 4) + Payload(d)
  }

  function DecodePayload(payload: Bytes): Read<Doc> {
    if payload == [] then Err(UnexpectedEof)
    else match ReadString(payload, 1, payload[0])
      case Err(e) => Err(e)
      case Ok(id, pos) =>
        if pos + 2 > |payload| then Err(UnexpectedEof)
        else match DecodeFields(payload, pos + 2, FromBytes(payload[pos..pos + 2]), [])
          case Err(e) => Err(e)
          case Ok(fields, _) => Ok(Doc(id, Put(fields, ID_KEY, Str(id))), |payload|)
  }

  /** A record at the front of `data`, with the bytes it takes. */
  function DecodeDocument(data: Bytes): (r: Read<Doc>)
    ensures r.Ok? ==> 0 < r.next <= |data|
  {
    if |data| < 4 then Err(UnexpectedEof)
    else
      var len := FromBytes(data[..4]);
      if |data| < 4 + len then Err(UnexpectedEof)
      else match DecodePayload(data[4..4 + len])
        case Err(e) => Err(e)
        case Ok(d, _) => Ok(d, 4 + len)
  }

  ghost predicate FaithfulDoc(d: Doc) {
    && ValidUtf8(d.id) && |d.id| < 256
    && FaithfulFields(d.fields) && |d.fields| < 65536 && |Payload(d)| < TWO_TO_THE_32
    && Lookup(d.fields, ID_KEY) == Some(Str(d.id))
  }

  /** Putting what is already there changes nothing. */
  lemma PutAgain<V>(s: seq<Entry<V>>, key: Bytes, value: V)
    requires Sorted(s) && Lookup(s, key) == Some(value)
    ensures Put(s, key, value) == s
  {
    hide Put, Lookup, Below, Above;
    var p, q := CutOf(s, key);
    OperationsAtCut(s, p, q, key, value);
    assert s[p] == Entry(key, value);
  }

  lemma PayloadRoundTrip(d: Doc)
    requires FaithfulDoc(d)
    ensures DecodePayload(Payload(d)) == Ok(d, |Payload(d)|)
  {
    hide ToBytes, FromBytes, ValidUtf8, EncodeFields, DecodeFields, FaithfulFields, Put, Lookup;
    var payload := Payload(d);
    var at := 1 + |d.id|;
    assert payload[1..at] == d.id;
    assert payload[at..at + 2] == ToBytes(|d.fields|, 2);
    Width16(|d.fields|);
    assert payload[at + 2..] == EncodeFields(d.fields);
    assert [] + d.fields == d.fields;
    SortedOf(d.fields);
    FieldsRoundTrip(d.fields, [], payload, at + 2);
    PutAgain(d.fields, ID_KEY, Str(d.id));
  }

  lemma SortedOf(fields: Fields)
    requires FaithfulFields(fields)
    ensures Sorted(fields)
  {
  }

  /** A record is read back whatever follows it. */
  lemma DocumentRoundTrip(d: Doc, rest: Bytes)
    requires FaithfulDoc(d)
    ensures DecodeDocument(EncodeDocument(d) + rest) == Ok(d, |EncodeDocument(d)|)
  {
    hide ToBytes, FromBytes, Payload, DecodePayload;
    var data := EncodeDocument(d) + rest;
    PayloadRoundTrip(d);
    assert data[..4] == ToBytes(|Payload(d)|, 4);
    Length32Exactly(|Payload(d)|);
    assert data[4..4 + |Payload(d)|] == Payload(d);
  }

  // ---- The file ----

  function EncodeAll(docs: seq<Doc>): Bytes {
    if docs == [] then [] else EncodeAll(docs[..|docs| - 1]) + EncodeDocument(docs[|docs| - 1])
  }

  function OffsetOf(docs: seq<Doc>, i: nat): nat
    requires i <= |docs|
  {
    |EncodeAll(docs[..i])|
  }

  ghost predicate AllFaithful(docs: seq<Doc>) {
    forall i :: 0 <= i < |docs| ==> FaithfulDoc(docs[i])
  }

  lemma {:induction false} FileConcat(a: seq<Doc>, b: seq<Doc>)
    ensures EncodeAll(a + b) == EncodeAll(a) + EncodeAll(b)
  {
    hide EncodeDocument;
    if b == [] {
      assert a + b == a;
    } else {
      var last := |b| - 1;
      assert (a + b)[..|a + b| - 1] == a + b[..last] && (a + b)[|a + b| - 1] == b[last];
      FileConcat(a, b[..last]);
      assert EncodeAll(a) + EncodeAll(b[..last]) + EncodeDocument(b[last]) == EncodeAll(a) + (EncodeAll(b[..last]) + EncodeDocument(b[last]));
    }
  }

  /** The record of document `i` stands at its offset in the file of `docs`. */
  lemma FileAround(docs: seq<Doc>, i: nat)
    requires i < |docs|
    ensures EncodeAll(docs) == EncodeAll(docs[..i]) + (EncodeDocument(docs[i]) + EncodeAll(docs[i + 1..]))
    ensures OffsetOf(docs, i + 1) == OffsetOf(docs, i) + |EncodeDocument(docs[i])|
  {
    hide EncodeDocument;
    var d, rest := docs[i], EncodeAll(docs[i + 1..]);
    assert docs == docs[..i + 1] + docs[i + 1..] && docs[..i + 1][..i] == docs[..i];
    FileConcat(docs[..i + 1], docs[i + 1..]);
    assert EncodeAll(docs[..i]) + EncodeDocument(d) + rest == EncodeAll(docs[..i]) + (EncodeDocument(d) + rest);
  }

  /** A record is read at its offset, and has its length in its first four bytes. */
  lemma RecordAt(docs: seq<Doc>, i: nat)
    requires AllFaithful(docs) && i < |docs|
    ensures OffsetOf(docs, i) + 4 <= OffsetOf(docs, i + 1) <= |EncodeAll(docs)|
    ensures DecodeDocument(EncodeAll(docs)[OffsetOf(docs, i)..]) == Ok(docs[i], OffsetOf(docs, i + 1) - OffsetOf(docs, i))
    ensures EncodeAll(docs)[OffsetOf(docs, i)..OffsetOf(docs, i + 1)] == EncodeDocument(docs[i])
    ensures OffsetOf(docs, i + 1) == OffsetOf(docs, i) + 4 + FromBytes(EncodeAll(docs)[OffsetOf(docs, i)..OffsetOf(docs, i) + 4])
  {
    hide EncodeAll, EncodeDocument, DecodeDocument, FaithfulDoc, FromBytes;
    var file, off := EncodeAll(docs), OffsetOf(docs, i);
    var d, rest := docs[i], EncodeAll(docs[i + 1..]);
    FileAround(docs, i);
    DocumentRoundTrip(d, rest);
    DocumentLength(d);
    CutOut(EncodeAll(docs[..i]), EncodeDocument(d), rest, 4);
  }

  /** What a scan does not go past. */
  predicate Unreadable(tail: Bytes) {
    tail == [] || DecodeDocument(tail).Err?
  }

  /** A record that is cut off cannot be read. */
  lemma TornIsUnreadable(d: Doc, n: nat)
    requires FaithfulDoc(d) && n < |EncodeDocument(d)|
    ensures Unreadable(EncodeDocument(d)[..n])
  {
    hide EncodeDocument, FaithfulDoc, FromBytes, DecodePayload;
    DocumentLength(d);
    if n >= 4 {
      assert EncodeDocument(d)[..n][..4] == EncodeDocument(d)[..4];
    }
  }

  /** What a scan reads where record `k` begins, or behind the last. */
  lemma ReadOn(docs: seq<Doc>, k: nat, tail: Bytes)
    requires AllFaithful(docs) && k <= |docs| && Unreadable(tail)
    ensures OffsetOf(docs, k) <= |EncodeAll(docs)|
    ensures OffsetOf(docs, |docs|) == |EncodeAll(docs)|
    ensures k < |docs| ==>
              && OffsetOf(docs, k) < OffsetOf(docs, k + 1) <= |EncodeAll(docs)|
              && DecodeDocument((EncodeAll(docs) + tail)[OffsetOf(docs, k)..]) == Ok(docs[k], OffsetOf(docs, k + 1) - OffsetOf(docs, k))
    ensures k == |docs| && tail != [] ==> DecodeDocument((EncodeAll(docs) + tail)[OffsetOf(docs, k)..]).Err?
  {
    hide EncodeAll, EncodeDocument, DecodeDocument, FaithfulDoc;
    var off := OffsetOf(docs, k);
    assert docs[..|docs|] == docs;
    if k < |docs| {
      RecordAt(docs, k);
      FileAround(docs, k);
      var e, rest := EncodeDocument(docs[k]), EncodeAll(docs[k + 1..]);
      Behind(EncodeAll(docs[..k]), e, rest, tail);
      DocumentRoundTrip(docs[k], rest + tail);
    } else {
      assert (EncodeAll(docs) + tail)[off..] == tail;
    }
  }

  lemma Behind(a: Bytes, b: Bytes, c: Bytes, tail: Bytes)
    ensures (a + (b + c) + tail)[|a|..] == b + (c + tail)
  {
    assert a + (b + c) + tail == a + (b + (c + tail));
  }

  lemma CutOut(a: Bytes, b: Bytes, c: Bytes, n: nat)
    requires n <= |b|
    ensures (a + (b + c))[|a|..] == b + c
    ensures (a + (b + c))[|a|..|a| + |b|] == b
    ensures (a + (b + c))[|a|..|a| + n] == b[..n]
  {
  }

  lemma DocumentLength(d: Doc)
    requires FaithfulDoc(d)
    ensures 4 <= |EncodeDocument(d)| == 4 + FromBytes(EncodeDocument(d)[..4])
  {
    hide ToBytes, FromBytes, Payload;
    Length32Exactly(|Payload(d)|);
    assert EncodeDocument(d)[..4] == ToBytes(|Payload(d)|, 4);
  }

  // ---- Filters and indexes ----

  type Filter = map<Bytes, Value>

  predicate MatchesFilter(fields: Fields, filter: Filter) {
    forall k :: k in filter ==> Lookup(fields, k) == Some(filter[k])
  }

  /** The documents that match, in the order of their insertion. */
  function Selected(docs: seq<Doc>, filter: Filter): seq<Fields> {
    if docs == [] then []
    else
      var last := docs[|docs| - 1];
      Selected(docs[..|docs| - 1], filter) + if MatchesFilter(last.fields, filter) then [last.fields] else []
  }

  /** Where the documents that match stand. */
  ghost function MatchPlaces(docs: seq<Doc>, filter: Filter): seq<nat> {
    if docs == [] then []
    else
      var last := |docs| - 1;
      MatchPlaces(docs[..last], filter) + if MatchesFilter(docs[last].fields, filter) then [last] else []
  }

  lemma {:induction false} PlacesIncrease(docs: seq<Doc>, filter: Filter)
    ensures forall n :: 0 <= n < |MatchPlaces(docs, filter)| ==> MatchPlaces(docs, filter)[n] < |docs|
    ensures forall m, n :: 0 <= m < n < |MatchPlaces(docs, filter)| ==> MatchPlaces(docs, filter)[m] < MatchPlaces(docs, filter)[n]
  {
    hide MatchesFilter;
    if docs != [] {
      var last := |docs| - 1;
      PlacesIncrease(docs[..last], filter);
      var before, places := MatchPlaces(docs[..last], filter), MatchPlaces(docs, filter);
      assert before + [] == before;
      assert places == before || places == before + [last];
    }
  }

  lemma {:induction false} SelectedAtPlaces(docs: seq<Doc>, filter: Filter)
    ensures |Selected(docs, filter)| == |MatchPlaces(docs, filter)|
    ensures forall n :: 0 <= n < |MatchPlaces(docs, filter)| ==>
              MatchPlaces(docs, filter)[n] < |docs| && Selected(docs, filter)[n] == docs[MatchPlaces(docs, filter)[n]].fields
  {
    hide MatchesFilter;
    PlacesIncrease(docs, filter);
    if docs != [] {
      SelectedAtPlaces(docs[..|docs| - 1], filter);
    }
  }

  lemma NothingIn(filter: Filter)
    ensures Selected([], filter) == []
  {
  }

  lemma SelectedOneMore(docs: seq<Doc>, k: nat, filter: Filter)
    requires k < |docs|
    ensures Selected(docs[..k + 1], filter) == Selected(docs[..k], filter) + if MatchesFilter(docs[k].fields, filter) then [docs[k].fields] else []
  {
    assert docs[..k + 1][..k] == docs[..k];
  }

  lemma {:induction false} PlacesOfMatches(docs: seq<Doc>, filter: Filter, i: nat)
    requires i < |docs|
    ensures i in MatchPlaces(docs, filter) <==> MatchesFilter(docs[i].fields, filter)
  {
    hide MatchesFilter;
    var last := |docs| - 1;
    PlacesIncrease(docs[..last], filter);
    if i < last {
      PlacesOfMatches(docs[..last], filter, i);
    }
  }

  lemma FieldsMatch(fields: Fields, filter: Filter)
    requires Sorted(fields)
    ensures MatchesFilter(fields, filter) <==> forall k :: k in filter ==> Entry(k, filter[k]) in fields
  {
    hide Lookup;
    forall k | k in filter ensures Lookup(fields, k) == Some(filter[k]) <==> Entry(k, filter[k]) in fields {
      LookupIsContent(fields, k);
      MemberIsBinding(fields, Entry(k, filter[k]));
    }
  }

  /** The results are the documents, in the order of their insertion, that have every field of
      the filter with its value. */
  lemma SelectedMeaning(docs: seq<Doc>, filter: Filter) returns (places: seq<nat>)
    requires AllFaithful(docs)
    ensures |Selected(docs, filter)| == |places|
    ensures forall n :: 0 <= n < |places| ==> places[n] < |docs| && Selected(docs, filter)[n] == docs[places[n]].fields
    ensures forall m, n :: 0 <= m < n < |places| ==> places[m] < places[n]
    ensures forall i :: 0 <= i < |docs| ==> (i in places <==> forall k :: k in filter ==> Entry(k, filter[k]) in docs[i].fields)
  {
    hide MatchesFilter, Selected, MatchPlaces;
    places := MatchPlaces(docs, filter);
    SelectedAtPlaces(docs, filter);
    PlacesIncrease(docs, filter);
    forall i | 0 <= i < |docs|
      ensures i in places <==> forall k :: k in filter ==> Entry(k, filter[k]) in docs[i].fields
    {
      PlacesOfMatches(docs, filter, i);
      FieldsMatch(docs[i].fields, filter);
    }
  }

  /** An empty filter finds every document. */
  lemma {:induction false} EmptyFilterFindsAll(docs: seq<Doc>)
    ensures |Selected(docs, map[])| == |docs| && forall i :: 0 <= i < |docs| ==> Selected(docs, map[])[i] == docs[i].fields
  {
    if docs != [] {
      EmptyFilterFindsAll(docs[..|docs| - 1]);
    }
  }

  /** Two filters on different fields together find what both find. */
  lemma UnionFindsBoth(docs: seq<Doc>, one: Filter, other: Filter, i: nat)
    requires one.Keys !! other.Keys && i < |docs|
    ensures i in MatchPlaces(docs, one + other) <==> i in MatchPlaces(docs, one) && i in MatchPlaces(docs, other)
  {
    hide Lookup, MatchPlaces;
    PlacesOfMatches(docs, one + other, i);
    PlacesOfMatches(docs, one, i);
    PlacesOfMatches(docs, other, i);
    assert forall k :: k in one ==> k in one + other && (one + other)[k] == one[k];
    assert forall k :: k in other ==> k in one + other && (one + other)[k] == other[k];
  }

  /** A value as text; values of different types may share it. */
  function IndexKey(v: Value): Bytes {
    match v
    case Str(s) => s
    case Int(n) => if n < 0 then [45] + Digits(-n) else Digits(n)
    case Bool(b) => if b then [116, 114, 117, 101] else [102, 97, 108, 115, 101]
    case Null => [110, 117, 108, 108]
    case Arr(_) => [95, 95, 97, 114, 114, 97, 121, 95, 95]
    case Obj(_) => [95, 95, 111, 98, 106, 101, 99, 116, 95, 95]
  }

  type Index = map<Bytes, seq<Bytes>>

  function IdsAt(index: Index, key: Bytes): seq<Bytes> {
    if key in index then index[key] else []
  }

  /** What inserting a document does to an index. */
  function Indexed(index: Index, field: Bytes, d: Doc): Index {
    match Lookup(d.fields, field)
    case None => index
    case Some(v) => index[IndexKey(v) := IdsAt(index, IndexKey(v)) + [d.id]]
  }

  function IndexOf(docs: seq<Doc>, field: Bytes): Index {
    if docs == [] then map[] else Indexed(IndexOf(docs[..|docs| - 1], field), field, docs[|docs| - 1])
  }

  predicate HasKey(d: Doc, field: Bytes, key: Bytes) {
    var v := Lookup(d.fields, field);
    v.Some? && IndexKey(v.value) == key
  }

  /** The documents with a value of the field that is written like `key`. */
  ghost function WithKey(docs: seq<Doc>, field: Bytes, key: Bytes): (r: seq<Doc>)
    ensures forall d :: d in r ==> d in docs
  {
    if docs == [] then []
    else
      var last := docs[|docs| - 1];
      WithKey(docs[..|docs| - 1], field, key) + if HasKey(last, field, key) then [last] else []
  }

  function IdsOf(docs: seq<Doc>): (r: seq<Bytes>)
    ensures |r| == |docs| && forall i :: 0 <= i < |r| ==> r[i] == docs[i].id
  {
    if docs == [] then [] else IdsOf(docs[..|docs| - 1]) + [docs[|docs| - 1].id]
  }

  /** An index holds, under every key, the ids of the documents with that key, in order. */
  lemma {:induction false} IndexHolds(docs: seq<Doc>, field: Bytes, key: Bytes)
    ensures IdsAt(IndexOf(docs, field), key) == IdsOf(WithKey(docs, field, key))
  {
    hide IndexKey, Lookup;
    if docs != [] {
      var last := |docs| - 1;
      IndexHolds(docs[..last], field, key);
      var w := WithKey(docs[..last], field, key);
      assert (w + [docs[last]])[..|w|] == w;
    }
  }

  /** Only documents with the key of the value asked for can match. */
  lemma {:induction false} SelectedWithKey(docs: seq<Doc>, filter: Filter, field: Bytes)
    requires field in filter
    ensures Selected(docs, filter) == Selected(WithKey(docs, field, IndexKey(filter[field])), filter)
  {
    hide IndexKey, Lookup;
    if docs != [] {
      var last := |docs| - 1;
      SelectedWithKey(docs[..last], filter, field);
      var w := WithKey(docs[..last], field, IndexKey(filter[field]));
      assert (w + [docs[last]])[..|w|] == w && w + [] == w;
      assert MatchesFilter(docs[last].fields, filter) ==> Lookup(docs[last].fields, field) == Some(filter[field]);
    }
  }

  // ---- The store ----

  ghost predicate DistinctIds(docs: seq<Doc>) {
    forall i, j :: 0 <= i < j < |docs| ==> docs[i].id != docs[j].id
  }

  /** Every document's offset, and no others. */
  ghost predicate OffsetsOf(docs: seq<Doc>, offsets: map<Bytes, nat>) {
    && (forall id :: id in offsets ==> HasId(docs, id))
    && (forall i :: 0 <= i < |docs| ==> docs[i].id in offsets && offsets[docs[i].id] == OffsetOf(docs, i))
  }

  ghost predicate HasId(docs: seq<Doc>, id: Bytes) {
    exists i :: 0 <= i < |docs| && docs[i].id == id
  }

  lemma OffsetsGrow(docs: seq<Doc>, offsets: map<Bytes, nat>, d: Doc)
    requires OffsetsOf(docs, offsets) && !HasId(docs, d.id)
    ensures OffsetsOf(docs + [d], offsets[d.id := |EncodeAll(docs)|])
    ensures EncodeAll(docs + [d]) == EncodeAll(docs) + EncodeDocument(d)
  {
    hide EncodeAll;
    var docs' := docs + [d];
    assert docs'[..|docs|] == docs;
    assert docs'[|docs|].id == d.id;
    forall id | id in offsets[d.id := |EncodeAll(docs)|] ensures HasId(docs', id) {
      if id != d.id {
        var i :| 0 <= i < |docs| && docs[i].id == id;
        assert docs'[i].id == id;
      }
    }
    forall i | 0 <= i < |docs| ensures OffsetOf(docs', i) == OffsetOf(docs, i) && docs[i].id != d.id {
      assert docs'[..i] == docs[..i];
    }
    FileGrows(docs, d);
  }

  lemma FileGrows(docs: seq<Doc>, d: Doc)
    ensures EncodeAll(docs + [d]) == EncodeAll(docs) + EncodeDocument(d)
  {
    assert (docs + [d])[..|docs|] == docs;
  }

  class DocumentStore {
    var file: Bytes
    var offsets: map<Bytes, nat>
    var indexes: map<Bytes, Index>

    ghost var docs: seq<Doc>

    ghost predicate Valid()
      reads this
    {
      && file == EncodeAll(docs) && AllFaithful(docs) && DistinctIds(docs)
      && OffsetsOf(docs, offsets)
      && forall f :: f in indexes ==> indexes[f] == IndexOf(docs, f)
    }

    /** Open a file of records, the last of which may be torn: the offsets of all others are
        found again, the indexes are not. */
    constructor Open(file: Bytes, ghost docs: seq<Doc>, ghost tail: Bytes)
      requires file == EncodeAll(docs) + tail && Unreadable(tail) && AllFaithful(docs) && DistinctIds(docs)
      ensures this.docs == docs && this.file == file && indexes == map[] && OffsetsOf(docs, offsets)
      ensures tail == [] ==> Valid()
    {
      hide EncodeAll, AllFaithful, DistinctIds, OffsetsOf, IndexOf, Unreadable;
      this.file, this.docs := file, docs;
      offsets, indexes := map[], map[];
      new;
      RebuildOffsets(tail);
      assert tail == [] ==> EncodeAll(docs) + tail == EncodeAll(docs);
    }

    /** Scan the file from record to record, up to the first that cannot be read. */
    method RebuildOffsets(ghost tail: Bytes)
      requires file == EncodeAll(docs) + tail && Unreadable(tail) && AllFaithful(docs) && DistinctIds(docs) && offsets == map[]
      modifies this`offsets
      ensures OffsetsOf(docs, offsets)
    {
      hide EncodeAll, DecodeDocument, AllFaithful, DistinctIds, OffsetsOf, EncodeDocument;
      var pos := 0;
      ghost var k := 0;
      ScanStarts(docs);
      while pos < |file|
        invariant k <= |docs| && pos == OffsetOf(docs, k)
        invariant OffsetsOf(docs[..k], offsets)
        decreases |docs| - k
      {
        var start := pos;
        ReadOn(docs, k, tail);
        var r := DecodeDocument(file[pos..]);
        match r {
          case Ok(d, consumed) =>
            ScanGoesOn(docs, k, offsets);
            offsets := offsets[d.id := start];
            pos := pos + consumed;
            k := k + 1;
          case Err(_) => break;
        }
      }
      if k < |docs| { RecordAt(docs, k); }
      assert docs[..|docs|] == docs;
    }

    /** Append a document under a new id, and enter it into every index. */
    method Insert(id: Bytes, given: Fields)
      requires Valid() && !HasId(docs, id)
      requires FaithfulDoc(Doc(id, Put(given, ID_KEY, Str(id))))
      modifies this
      ensures Valid() && docs == old(docs) + [Doc(id, Put(given, ID_KEY, Str(id)))]
      ensures indexes.Keys == old(indexes.Keys)
    {
      hide EncodeAll, EncodeDocument, FaithfulDoc, OffsetsOf, IndexOf, Indexed;
      var d := Doc(id, Put(given, ID_KEY, Str(id)));
      OffsetsGrow(docs, offsets, d);
      var offset := |file|;
      file := file + EncodeDocument(d);
      offsets := offsets[id := offset];
      ghost var before := indexes;
      var left := indexes.Keys;
      while left != {}
        invariant left <= indexes.Keys && indexes.Keys == before.Keys
        invariant file == EncodeAll(docs) + EncodeDocument(d) && offsets == old(offsets)[id := offset] && docs == old(docs)
        invariant forall f :: f in indexes ==> indexes[f] == if f in left then before[f] else Indexed(before[f], f, d)
        decreases |left|
      {
        var field :| field in left;
        left := left - {field};
        indexes := indexes[field := Indexed(indexes[field], field, d)];
      }
      docs := docs + [d];
      InsertedIndexes(old(docs), d, before, indexes);
      InsertedDoc(old(docs), d);
    }

    /** The document with an id, read from its offset. */
    method Get(id: Bytes) returns (r: Option<Fields>)
      requires Valid()
      ensures r.Some? <==> HasId(docs, id)
      ensures forall i :: 0 <= i < |docs| && docs[i].id == id ==> r == Some(docs[i].fields)
    {
      hide EncodeAll, EncodeDocument, DecodeDocument, FaithfulDoc, IndexOf, FromBytes;
      if id !in offsets { return None; }
      assert HasId(docs, id);
      ghost var i :| 0 <= i < |docs| && docs[i].id == id;
      RecordAt(docs, i);
      DocumentRoundTrip(docs[i], []);
      assert EncodeDocument(docs[i]) + [] == EncodeDocument(docs[i]);
      var offset := offsets[id];
      var len := FromBytes(file[offset..offset + 4]);
      var d := DecodeDocument(file[offset..offset + 4 + len]);
      match d {
        case Ok(doc, _) => r := Some(doc.fields);
        case Err(_) => r := None;
      }
    }

    /** Index a field of all documents. */
    method CreateIndex(field: Bytes)
      requires Valid()
      modifies this`indexes
      ensures Valid() && indexes.Keys == old(indexes.Keys) + {field}
    {
      hide EncodeAll, DecodeDocument, AllFaithful, DistinctIds, OffsetsOf, Indexed;
      var index: Index := map[];
      var pos := 0;
      ghost var k := 0;
      ScanStarts(docs);
      while pos < |file|
        invariant k <= |docs| && pos == OffsetOf(docs, k) && (pos < |file| <==> k < |docs|)
        invariant index == IndexOf(docs[..k], field) && indexes == old(indexes)
        decreases |docs| - k
      {
        RecordAt(docs, k);
        ScanNext(docs, k);
        var r := DecodeDocument(file[pos..]);
        match r {
          case Ok(d, consumed) =>
            index := Indexed(index, field, d);
            pos := pos + consumed;
            k := k + 1;
          case Err(_) => break;
        }
      }
      assert docs[..|docs|] == docs;
      indexes := indexes[field := index];
    }

    /** The matching documents, by reading the whole file. */
    method FullScan(filter: Filter) returns (results: seq<Fields>, ghost places: seq<nat>)
      requires Valid()
      ensures results == Selected(docs, filter) && |results| == |places|
      ensures forall n :: 0 <= n < |places| ==> places[n] < |docs| && results[n] == docs[places[n]].fields
      ensures forall m, n :: 0 <= m < n < |places| ==> places[m] < places[n]
      ensures forall i :: 0 <= i < |docs| ==> (i in places <==> forall k :: k in filter ==> Entry(k, filter[k]) in docs[i].fields)
    {
      hide EncodeAll, DecodeDocument, AllFaithful, DistinctIds, OffsetsOf, IndexOf, Selected, MatchesFilter;
      results, places := [], [];
      NothingIn(filter);
      var pos := 0;
      ghost var k := 0;
      ScanStarts(docs);
      while pos < |file|
        invariant k <= |docs| && pos == OffsetOf(docs, k) && (pos < |file| <==> k < |docs|)
        invariant results == Selected(docs[..k], filter)
        decreases |docs| - k
      {
        RecordAt(docs, k);
        ScanNext(docs, k);
        var r := DecodeDocument(file[pos..]);
        match r {
          case Ok(d, consumed) =>
            SelectedOneMore(docs, k, filter);
            if MatchesFilter(d.fields, filter) {
              results := results + [d.fields];
            }
            pos := pos + consumed;
            k := k + 1;
          case Err(_) => break;
        }
      }
      assert docs[..|docs|] == docs;
      places := SelectedMeaning(docs, filter);
    }

    /** The same documents in the same order, through whichever indexed field comes first. */
    method Find(filter: Filter) returns (results: seq<Fields>, ghost places: seq<nat>)
      requires Valid()
      ensures results == Selected(docs, filter) && |results| == |places|
      ensures forall n :: 0 <= n < |places| ==> places[n] < |docs| && results[n] == docs[places[n]].fields
      ensures forall m, n :: 0 <= m < n < |places| ==> places[m] < places[n]
      ensures forall i :: 0 <= i < |docs| ==> (i in places <==> forall k :: k in filter ==> Entry(k, filter[k]) in docs[i].fields)
    {
      hide EncodeAll, AllFaithful, DistinctIds, OffsetsOf, IndexOf, Selected;
      places := [];
      var left := filter.Keys;
      while left != {}
        invariant left <= filter.Keys
        decreases |left|
      {
        var field :| field in left;
        left := left - {field};
        if field in indexes {
          results := FindByIndex(filter, field);
          places := SelectedMeaning(docs, filter);
          return;
        }
      }
      results, places := FullScan(filter);
    }

    method FindByIndex(filter: Filter, field: Bytes) returns (results: seq<Fields>)
      requires Valid() && field in filter && field in indexes
      ensures results == Selected(docs, filter)
    {
      hide EncodeAll, AllFaithful, OffsetsOf, IndexOf, WithKey, IndexKey, Selected, MatchesFilter;
      var key := IndexKey(filter[field]);
      ghost var chosen := WithKey(docs, field, key);
      IndexHolds(docs, field, key);
      SelectedWithKey(docs, filter, field);
      var ids := IdsAt(indexes[field], key);
      results := [];
      NothingIn(filter);
      for i := 0 to |ids|
        invariant results == Selected(chosen[..i], filter)
      {
        assert chosen[i] in docs;
        SelectedOneMore(chosen, i, filter);
        var doc := Get(ids[i]);
        if doc.Some? {
          if MatchesFilter(doc.value, filter) {
            results := results + [doc.value];
          }
        }
      }
      assert chosen[..|chosen|] == chosen;
    }
  }

  lemma ScanStarts(docs: seq<Doc>)
    requires AllFaithful(docs)
    ensures OffsetOf(docs, 0) == 0 && (0 < |EncodeAll(docs)| <==> 0 < |docs|)
    ensures OffsetsOf(docs[..0], map[])
  {
    if docs != [] {
      RecordAt(docs, 0);
    }
  }

  lemma ScanNext(docs: seq<Doc>, k: nat)
    requires AllFaithful(docs) && k < |docs|
    ensures OffsetOf(docs, k + 1) < |EncodeAll(docs)| <==> k + 1 < |docs|
    ensures docs[..k + 1][..k] == docs[..k]
  {
    hide EncodeAll;
    if k + 1 < |docs| {
      RecordAt(docs, k + 1);
    } else {
      assert docs[..k + 1] == docs;
    }
  }

  lemma ScanGoesOn(docs: seq<Doc>, k: nat, offsets: map<Bytes, nat>)
    requires AllFaithful(docs) && DistinctIds(docs) && k < |docs| && OffsetsOf(docs[..k], offsets)
    ensures OffsetOf(docs, k + 1) < |EncodeAll(docs)| <==> k + 1 < |docs|
    ensures OffsetsOf(docs[..k + 1], offsets[docs[k].id := OffsetOf(docs, k)])
  {
    hide EncodeAll, AllFaithful;
    ScanNext(docs, k);
    assert docs[..k + 1] == docs[..k] + [docs[k]];
    assert !HasId(docs[..k], docs[k].id);
    OffsetsGrow(docs[..k], offsets, docs[k]);
  }

  lemma InsertedIndexes(docs: seq<Doc>, d: Doc, before: map<Bytes, Index>, after: map<Bytes, Index>)
    requires after.Keys == before.Keys
    requires forall f :: f in before ==> before[f] == IndexOf(docs, f)
    requires forall f :: f in after ==> after[f] == Indexed(before[f], f, d)
    ensures forall f :: f in after ==> after[f] == IndexOf(docs + [d], f)
  {
    hide Indexed;
    assert (docs + [d])[..|docs|] == docs;
  }

  lemma InsertedDoc(docs: seq<Doc>, d: Doc)
    requires AllFaithful(docs) && DistinctIds(docs) && FaithfulDoc(d) && !HasId(docs, d.id)
    ensures AllFaithful(docs + [d]) && DistinctIds(docs + [d])
  {
    hide FaithfulDoc;
    forall i | 0 <= i < |docs| ensures docs[i].id != d.id {
    }
  }
}
