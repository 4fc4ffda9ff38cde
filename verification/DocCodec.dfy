/** The type-tagged binary form of documents. */
module DocCodec {
  import opened ByteStrings
  import opened Options
  import opened SortedEntries
  import opened LittleEndian
  import opened Utf8

  /** Values as JSON has them, without fractions; the fields of an object are in the order
      of their keys. */
  datatype Value =
    | Str(s: Bytes)
    | Int(n: int)
    | Bool(b: bool)
    | Null
    | Arr(items: seq<Value>)
    | Obj(fields: seq<Entry<Value>>)

  const TAG_STRING: byte := 1
  const TAG_INT64: byte := 2
  const TAG_FLOAT64: byte := 3
  const TAG_BOOL: byte := 4
  const TAG_NULL: byte := 5
  const TAG_ARRAY: byte := 6
  const TAG_OBJECT: byte := 7

  // ---- Encoding ----

  function EncodeValue(v: Value): Bytes
    decreases v
  {
    match v
    case Str(s) => [TAG_STRING] + ToBytes(|s|, 4) + s
    case Int(n) => [TAG_INT64] + ToBytes(Pattern(n), 8)
    case Bool(b) => [TAG_BOOL, if b then 1 else 0]
    case Null => [TAG_NULL]
    case Arr(items) => [TAG_ARRAY] + ToBytes(|items|, 4) + EncodeItems(items)
    case Obj(fields) => [TAG_OBJECT] + ToBytes(|fields|, 2) + EncodeFields(fields)
  }

  function EncodeItems(items: seq<Value>): Bytes
    decreases items
  {
    if items == [] then [] else EncodeValue(items[0]) + EncodeItems(items[1..])
  }

  function EncodeFields(fields: seq<Entry<Value>>): Bytes
    decreases fields
  {
    if fields == [] then [] else EncodeField(fields[0].key, EncodeValue(fields[0].value)) + EncodeFields(fields[1..])
  }

  /** A key behind its length, of which one byte is kept, and the encoded value. */
  function EncodeField(key: Bytes, value: Bytes): Bytes {
    [|key| % 256] + key + value
  }

  // ---- Decoding ----

  datatype DecodeError = UnexpectedEof | InvalidUtf8 | UnknownTag | FloatValue

  datatype Read<+T> = Ok(value: T, next: nat) | Err(error: DecodeError)

  function ReadString(data: Bytes, pos: nat, len: nat): (r: Read<Bytes>)
    ensures r.Ok? ==> pos + len == r.next <= |data|
  {
    if pos + len > |data| then Err(UnexpectedEof)
    else if ValidUtf8(data[pos..pos + len]) then Ok(data[pos..pos + len], pos + len)
    else Err(InvalidUtf8)
  }

  function ReadKey(data: Bytes, pos: nat): (r: Read<Bytes>)
    ensures r.Ok? ==> pos < r.next <= |data|
  {
    if pos >= |data| then Err(UnexpectedEof) else ReadString(data, pos + 1, data[pos])
  }

  function DecodeValue(data: Bytes, pos: nat): (r: Read<Value>)
    ensures r.Ok? ==> pos < r.next <= |data|
    decreases |data| - pos, 0
  {
    if pos >= |data| then Err(UnexpectedEof)
    else
      var at := pos + 1;
      if data[pos] == TAG_STRING then
        if at + 4 > |data| then Err(UnexpectedEof)
        else match ReadString(data, at + 4, FromBytes(data[at..at + 4]))
          case Ok(s, next) => Ok(Str(s), next)
          case Err(e) => Err(e)
      else if data[pos] == TAG_INT64 then
        if at + 8 > |data| then Err(UnexpectedEof) else Ok(Int(SignedOf(FromBytes(data[at..at + 8]))), at + 8)
      else if data[pos] == TAG_FLOAT64 then
        if at + 8 > |data| then Err(UnexpectedEof) else Err(FloatValue)
      else if data[pos] == TAG_BOOL then
        if at >= |data| then Err(UnexpectedEof) else Ok(Bool(data[at] != 0), at + 1)
      else if data[pos] == TAG_NULL then Ok(Null, at)
      else if data[pos] == TAG_ARRAY then
        if at + 4 > |data| then Err(UnexpectedEof)
        else match DecodeItems(data, at + 4, FromBytes(data[at..at + 4]))
          case Ok(items, next) => Ok(Arr(items), next)
          case Err(e) => Err(e)
      else if data[pos] == TAG_OBJECT then
        if at + 2 > |data| then Err(UnexpectedEof)
        else match DecodeFields(data, at + 2, FromBytes(data[at..at + 2]), [])
          case Ok(fields, next) => Ok(Obj(fields), next)
          case Err(e) => Err(e)
      else Err(UnknownTag)
  }

  function DecodeItems(data: Bytes, pos: nat, count: nat): (r: Read<seq<Value>>)
    requires pos <= |data|
    ensures r.Ok? ==> pos <= r.next <= |data|
    decreases |data| - pos, count + 1
  {
    if count == 0 then Ok([], pos)
    else match DecodeValue(data, pos)
      case Err(e) => Err(e)
      case Ok(v, next) =>
        match DecodeItems(data, next, count - 1)
        case Err(e) => Err(e)
        case Ok(rest, end) => Ok([v] + rest, end)
  }

  /** The fields, each inserted into the map of those before it. */
  function DecodeFields(data: Bytes, pos: nat, count: nat, fields: seq<Entry<Value>>): (r: Read<seq<Entry<Value>>>)
    requires pos <= |data|
    ensures r.Ok? ==> pos <= r.next <= |data|
    decreases |data| - pos, count + 1
  {
    if count == 0 then Ok(fields, pos)
    else match ReadKey(data, pos)
      case Err(e) => Err(e)
      case Ok(key, at) =>
        match DecodeValue(data, at)
        case Err(e) => Err(e)
        case Ok(v, next) => DecodeFields(data, next, count - 1, Put(fields, key, v))
  }

  // ---- The code's own form: buffers and loops ----

  method WriteValue(v: Value, buf: Bytes) returns (out: Bytes)
    ensures out == buf + EncodeValue(v)
    decreases v
  {
    hide ToBytes, EncodeItems, EncodeFields;
    match v {
      case Str(s) =>
        out := buf + [TAG_STRING];
        out := out + ToBytes(|s|, 4);
        out := out + s;
      case Int(n) =>
        out := buf + [TAG_INT64];
        out := out + ToBytes(Pattern(n), 8);
      case Bool(b) =>
        out := buf + [TAG_BOOL];
        out := out + [if b then 1 else 0];
      case Null =>
        out := buf + [TAG_NULL];
      case Arr(items) =>
        out := buf + [TAG_ARRAY];
        out := out + ToBytes(|items|, 4);
        out := WriteItems(items, out);
      case Obj(fields) =>
        out := buf + [TAG_OBJECT];
        out := out + ToBytes(|fields|, 2);
        out := WriteFields(fields, out);
    }
  }

  method WriteItems(items: seq<Value>, buf: Bytes) returns (out: Bytes)
    ensures out == buf + EncodeItems(items)
    decreases items
  {
    hide EncodeValue;
    out := buf;
    assert items[..0] == [];
    for i := 0 to |items|
      invariant out == buf + EncodeItems(items[..i])
    {
      ItemsSplit(items, i);
      ghost var before := EncodeItems(items[..i]);
      out := WriteValue(items[i], out);
      assert buf + before + EncodeValue(items[i]) == buf + (before + EncodeValue(items[i]));
    }
    assert items[..|items|] == items;
  }

  method WriteFields(fields: seq<Entry<Value>>, buf: Bytes) returns (out: Bytes)
    ensures out == buf + EncodeFields(fields)
    decreases fields
  {
    hide EncodeValue;
    out := buf;
    assert fields[..0] == [];
    for i := 0 to |fields|
      invariant out == buf + EncodeFields(fields[..i])
    {
      FieldsSplit(fields, i);
      ghost var before := EncodeFields(fields[..i]);
      var f := fields[i];
      out := out + [|f.key| % 256];
      out := out + f.key;
      out := WriteValue(f.value, out);
      Reassociate(buf, before, [|f.key| % 256], f.key, EncodeValue(f.value));
    }
    assert fields[..|fields|] == fields;
  }

  /** Reading with loops over the items and fields. */
  method ReadValue(data: Bytes, pos: nat) returns (r: Read<Value>)
    ensures r == DecodeValue(data, pos)
    decreases |data| - pos, 0
  {
    hide DecodeItems, DecodeFields, ReadString, FromBytes;
    if pos >= |data| { return Err(UnexpectedEof); }
    var tag, at := data[pos], pos + 1;
    if tag == TAG_STRING {
      if at + 4 > |data| { return Err(UnexpectedEof); }
      var s := ReadString(data, at + 4, FromBytes(data[at..at + 4]));
      if s.Err? { return Err(s.error); }
      r := Ok(Str(s.value), s.next);
    } else if tag == TAG_INT64 {
      if at + 8 > |data| { return Err(UnexpectedEof); }
      r := Ok(Int(SignedOf(FromBytes(data[at..at + 8]))), at + 8);
    } else if tag == TAG_FLOAT64 {
      if at + 8 > |data| { return Err(UnexpectedEof); }
      r := Err(FloatValue);
    } else if tag == TAG_BOOL {
      if at >= |data| { return Err(UnexpectedEof); }
      r := Ok(Bool(data[at] != 0), at + 1);
    } else if tag == TAG_NULL {
      r := Ok(Null, at);
    } else if tag == TAG_ARRAY {
      if at + 4 > |data| { return Err(UnexpectedEof); }
      var items := ReadItems(data, at + 4, FromBytes(data[at..at + 4]));
      if items.Err? { return Err(items.error); }
      r := Ok(Arr(items.value), items.next);
    } else if tag == TAG_OBJECT {
      if at + 2 > |data| { return Err(UnexpectedEof); }
      var fields := ReadFields(data, at + 2, FromBytes(data[at..at + 2]));
      if fields.Err? { return Err(fields.error); }
      r := Ok(Obj(fields.value), fields.next);
    } else {
      r := Err(UnknownTag);
    }
  }

  method ReadItems(data: Bytes, start: nat, count: nat) returns (r: Read<seq<Value>>)
    requires start <= |data|
    ensures r == DecodeItems(data, start, count)
    decreases |data| - start, count + 1
  {
    hide DecodeValue;
    var items: seq<Value> := [];
    var pos := start;
    NothingBefore(DecodeItems(data, start, count));
    for k := 0 to count
      invariant start <= pos <= |data|
      invariant DecodeItems(data, start, count) == Behind(items, DecodeItems(data, pos, count - k))
    {
      var v := ReadValue(data, pos);
      if v.Err? { return Err(v.error); }
      ghost var rest := DecodeItems(data, v.next, count - k - 1);
      assert rest.Ok? ==> items + ([v.value] + rest.value) == (items + [v.value]) + rest.value;
      items := items + [v.value];
      pos := v.next;
    }
    assert items + [] == items;
    r := Ok(items, pos);
  }

  /** `r` with `items` before its own. */
  function Behind(items: seq<Value>, r: Read<seq<Value>>): Read<seq<Value>> {
    match r
    case Ok(rest, end) => Ok(items + rest, end)
    case Err(e) => Err(e)
  }

  lemma NothingBefore(r: Read<seq<Value>>)
    ensures Behind([], r) == r
  {
    assert r.Ok? ==> [] + r.value == r.value;
  }

  method ReadFields(data: Bytes, start: nat, count: nat) returns (r: Read<seq<Entry<Value>>>)
    requires start <= |data|
    ensures r == DecodeFields(data, start, count, [])
    decreases |data| - start, count + 1
  {
    hide DecodeValue, ReadKey, Put;
    var fields: seq<Entry<Value>> := [];
    var pos := start;
    for k := 0 to count
      invariant start <= pos <= |data|
      invariant DecodeFields(data, start, count, []) == DecodeFields(data, pos, count - k, fields)
    {
      var key := ReadKey(data, pos);
      if key.Err? { return Err(key.error); }
      var v := ReadValue(data, key.next);
      if v.Err? { return Err(v.error); }
      fields := Put(fields, key.value, v.value);
      pos := v.next;
    }
    r := Ok(fields, pos);
  }

  lemma Reassociate(a: Bytes, b: Bytes, c: Bytes, d: Bytes, e: Bytes)
    ensures a + b + c + d + e == a + (b + (c + d + e))
  {
  }

  lemma {:induction false} ItemsConcat(a: seq<Value>, b: seq<Value>)
    ensures EncodeItems(a + b) == EncodeItems(a) + EncodeItems(b)
  {
    if a == [] {
      assert a + b == b;
    } else {
      assert (a + b)[1..] == a[1..] + b;
      ItemsConcat(a[1..], b);
    }
  }

  lemma ItemsSplit(items: seq<Value>, i: nat)
    requires i < |items|
    ensures EncodeItems(items[..i + 1]) == EncodeItems(items[..i]) + EncodeValue(items[i])
  {
    hide EncodeValue;
    assert items[..i + 1] == items[..i] + [items[i]];
    ItemsConcat(items[..i], [items[i]]);
    assert [items[i]][1..] == [];
  }

  lemma {:induction false} FieldsConcat(a: seq<Entry<Value>>, b: seq<Entry<Value>>)
    ensures EncodeFields(a + b) == EncodeFields(a) + EncodeFields(b)
  {
    if a == [] {
      assert a + b == b;
    } else {
      assert (a + b)[1..] == a[1..] + b;
      FieldsConcat(a[1..], b);
    }
  }

  lemma FieldsSplit(fields: seq<Entry<Value>>, i: nat)
    requires i < |fields|
    ensures EncodeFields(fields[..i + 1]) == EncodeFields(fields[..i]) + EncodeField(fields[i].key, EncodeValue(fields[i].value))
  {
    hide EncodeValue, EncodeField;
    assert fields[..i + 1] == fields[..i] + [fields[i]];
    FieldsConcat(fields[..i], [fields[i]]);
    assert [fields[i]][1..] == [];
  }

  // ---- The round trip ----

  /** What the format can hold: UTF-8 strings, keys of at most 255 bytes, 64-bit numbers,
      and counts that fit their fields. */
  ghost predicate Faithful(v: Value)
    decreases v
  {
    match v
    case Str(s) => ValidUtf8(s) && |s| < TWO_TO_THE_32
    case Int(n) => 0 - TWO_TO_THE_64 / 2 <= n < TWO_TO_THE_64 / 2
    case Bool(_) => true
    case Null => true
    case Arr(items) => |items| < TWO_TO_THE_32 && forall i :: 0 <= i < |items| ==> Faithful(items[i])
    case Obj(fields) => |fields| < 65536 && FaithfulFields(fields)
  }

  ghost predicate FaithfulFields(fields: seq<Entry<Value>>)
    decreases fields
  {
    && Sorted(fields)
    && forall i :: 0 <= i < |fields| ==>
         && ValidUtf8(fields[i].key) && |fields[i].key| < 256
         && Faithful(fields[i].value)
  }

  lemma StringRoundTrip(s: Bytes, data: Bytes, pos: nat)
    requires Faithful(Str(s)) && At(data, pos, EncodeValue(Str(s)))
    ensures DecodeValue(data, pos) == Ok(Str(s), pos + |EncodeValue(Str(s))|)
  {
    hide ToBytes, FromBytes, ValidUtf8, DecodeItems, DecodeFields;
    var e := EncodeValue(Str(s));
    Stands(data, pos, e, 0, 1);
    Stands(data, pos, e, 1, 5);
    Stands(data, pos, e, 5, 5 + |s|);
    assert e[1..5] == ToBytes(|s|, 4) && e[5..5 + |s|] == s;
    Length32Exactly(|s|);
  }

  lemma IntRoundTrip(n: int, data: Bytes, pos: nat)
    requires Faithful(Int(n)) && At(data, pos, EncodeValue(Int(n)))
    ensures DecodeValue(data, pos) == Ok(Int(n), pos + |EncodeValue(Int(n))|)
  {
    hide ToBytes, FromBytes, DecodeItems, DecodeFields, SignedOf, Pattern;
    var e := EncodeValue(Int(n));
    Stands(data, pos, e, 0, 1);
    Stands(data, pos, e, 1, 9);
    assert e[1..9] == ToBytes(Pattern(n), 8);
    NumberRoundTrip(n);
  }

  lemma AtomRoundTrip(v: Value, data: Bytes, pos: nat)
    requires (v.Bool? || v.Null?) && At(data, pos, EncodeValue(v))
    ensures DecodeValue(data, pos) == Ok(v, pos + |EncodeValue(v)|)
  {
    hide DecodeItems, DecodeFields, FromBytes;
    var e := EncodeValue(v);
    Stands(data, pos, e, 0, 1);
    if v.Bool? {
      Stands(data, pos, e, 1, 2);
    }
  }

  /** The head of an array and of an object. */
  lemma HeadRead(v: Value, data: Bytes, pos: nat)
    requires v.Arr? || v.Obj?
    requires Faithful(v) && At(data, pos, EncodeValue(v))
    ensures v.Arr? ==>
              && At(data, pos + 5, EncodeItems(v.items)) && |EncodeValue(v)| == 5 + |EncodeItems(v.items)|
              && (DecodeItems(data, pos + 5, |v.items|).Ok? ==>
                   DecodeValue(data, pos) == Ok(Arr(DecodeItems(data, pos + 5, |v.items|).value), DecodeItems(data, pos + 5, |v.items|).next))
    ensures v.Obj? ==>
              && At(data, pos + 3, EncodeFields(v.fields)) && |EncodeValue(v)| == 3 + |EncodeFields(v.fields)|
              && (DecodeFields(data, pos + 3, |v.fields|, []).Ok? ==>
                   DecodeValue(data, pos) == Ok(Obj(DecodeFields(data, pos + 3, |v.fields|, []).value), DecodeFields(data, pos + 3, |v.fields|, []).next))
  {
    hide ToBytes, FromBytes, DecodeItems, DecodeFields, EncodeItems, EncodeFields, FaithfulFields, At;
    if v.Arr? {
      HeadStands(TAG_ARRAY, ToBytes(|v.items|, 4), EncodeItems(v.items), data, pos);
      Length32Exactly(|v.items|);
    } else {
      HeadStands(TAG_OBJECT, ToBytes(|v.fields|, 2), EncodeFields(v.fields), data, pos);
      Width16(|v.fields|);
    }
  }

  lemma HeadStands(tag: byte, count: Bytes, rest: Bytes, data: Bytes, pos: nat)
    requires At(data, pos, [tag] + count + rest)
    ensures pos + 1 + |count| <= |data| && data[pos] == tag && data[pos + 1..pos + 1 + |count|] == count
    ensures At(data, pos + 1 + |count|, rest)
  {
    assert [tag] + count + rest == [tag] + (count + rest);
    Apart(data, pos, [tag], count + rest);
    Apart(data, pos + 1, count, rest);
    Stands(data, pos, [tag], 0, 1);
  }

  /** A faithful value is read back wherever its encoding stands, with its exact end. */
  lemma {:induction false} ValueRoundTrip(v: Value, data: Bytes, pos: nat)
    requires Faithful(v) && At(data, pos, EncodeValue(v))
    ensures DecodeValue(data, pos) == Ok(v, pos + |EncodeValue(v)|)
    decreases v
  {
    hide EncodeValue, DecodeValue, ValidUtf8;
    match v {
      case Str(s) => StringRoundTrip(s, data, pos);
      case Int(n) => IntRoundTrip(n, data, pos);
      case Bool(_) => AtomRoundTrip(v, data, pos);
      case Null => AtomRoundTrip(v, data, pos);
      case Arr(items) =>
        HeadRead(v, data, pos);
        ItemsRoundTrip(items, data, pos + 5);
      case Obj(fields) =>
        HeadRead(v, data, pos);
        assert [] + fields == fields;
        FieldsRoundTrip(fields, [], data, pos + 3);
    }
  }

  lemma {:induction false} ItemsRoundTrip(items: seq<Value>, data: Bytes, pos: nat)
    requires forall i :: 0 <= i < |items| ==> Faithful(items[i])
    requires At(data, pos, EncodeItems(items))
    ensures DecodeItems(data, pos, |items|) == Ok(items, pos + |EncodeItems(items)|)
    decreases items
  {
    hide EncodeValue, DecodeValue, Faithful;
    if items != [] {
      var e, rest := EncodeValue(items[0]), EncodeItems(items[1..]);
      Apart(data, pos, e, rest);
      ValueRoundTrip(items[0], data, pos);
      ItemsRoundTrip(items[1..], data, pos + |e|);
      assert items == [items[0]] + items[1..];
    }
  }

  lemma {:induction false} FieldsRoundTrip(fields: seq<Entry<Value>>, before: seq<Entry<Value>>, data: Bytes, pos: nat)
    requires FaithfulFields(fields) && Sorted(before + fields)
    requires At(data, pos, EncodeFields(fields))
    ensures DecodeFields(data, pos, |fields|, before) == Ok(before + fields, pos + |EncodeFields(fields)|)
    decreases fields
  {
    hide EncodeValue, DecodeValue, Faithful, ValidUtf8, Put, EncodeField, ReadKey, Sorted;
    if fields == [] {
      assert before + fields == before;
    } else {
      var f := fields[0];
      var v, rest := EncodeValue(f.value), EncodeFields(fields[1..]);
      var e := EncodeField(f.key, v);
      assert |f.key| < 256 && ValidUtf8(f.key);
      Apart(data, pos, e, rest);
      FieldRead(f.key, v, data, pos);
      ValueRoundTrip(f.value, data, pos + 1 + |f.key|);
      PutLast(before, fields);
      assert (before + [f]) + fields[1..] == before + fields;
      FieldsRoundTrip(fields[1..], before + [f], data, pos + |e|);
    }
  }

  lemma FieldRead(key: Bytes, v: Bytes, data: Bytes, pos: nat)
    requires |key| < 256 && ValidUtf8(key) && At(data, pos, EncodeField(key, v))
    ensures ReadKey(data, pos) == Ok(key, pos + 1 + |key|)
    ensures |EncodeField(key, v)| == 1 + |key| + |v| && At(data, pos + 1 + |key|, v)
  {
    hide ValidUtf8;
    assert EncodeField(key, v) == [|key| % 256] + (key + v);
    Apart(data, pos, [|key| % 256], key + v);
    Apart(data, pos + 1, key, v);
    Stands(data, pos, [|key| % 256], 0, 1);
  }

  /** Inserting a key behind all others appends it. */
  lemma PutLast(before: seq<Entry<Value>>, fields: seq<Entry<Value>>)
    requires fields != [] && Sorted(before + fields)
    ensures Put(before, fields[0].key, fields[0].value) == before + [fields[0]]
    ensures Sorted(fields[1..])
  {
    var key := fields[0].key;
    forall i | 0 <= i < |before| ensures Less(before[i].key, key) {
      assert (before + fields)[i] == before[i] && (before + fields)[|before|] == fields[0];
    }
    FiltersOfAllBelow(before, key);
    forall i, j | 0 <= i < j < |fields[1..]| ensures Less(fields[1..][i].key, fields[1..][j].key) {
      assert (before + fields)[|before| + 1 + i] == fields[1..][i] && (before + fields)[|before| + 1 + j] == fields[1..][j];
    }
  }
}
