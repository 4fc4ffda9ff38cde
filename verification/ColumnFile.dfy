/** The file of row groups: a magic word, the groups, and a footer that is found from the end. */
module ColumnFile {
  import opened ByteStrings
  import opened LittleEndian
  import opened Utf8

  /** A floating-point number is its 64-bit pattern. */
  datatype Value = Null | Bool(b: bool) | Int(n: int) | Float(bits: nat) | Str(s: Bytes)

  type Columns = map<Bytes, seq<Value>>

  datatype RowGroup = RowGroup(columns: Columns, size: nat)

  /** "PQLITE01" */
  const MAGIC: Bytes := [80, 81, 76, 73, 84, 69, 48, 49]

  const PLAIN: byte := 0

  // ---- Encoding ----

  function EncodeValue(v: Value): Bytes {
    match v
    case Null => [0]
    case Bool(b) => [1, if b then 1 else 0]
    case Int(n) => [2] + ToBytes(Pattern(n), 8)
    case Float(bits) => [3] + ToBytes(bits, 8)
    case Str(s) => [4] + (ToBytes(|s|, 4) + s)
  }

  function EncodeValues(col: seq<Value>): Bytes {
    if col == [] then [] else EncodeValue(col[0]) + EncodeValues(col[1..])
  }

  function EncodeColumnPlain(col: seq<Value>): Bytes {
    ToBytes(|col|, 4) + EncodeValues(col)
  }

  function EncodeColumn(name: Bytes, col: seq<Value>): Bytes {
    ToBytes(|name|, 2) + (name + ([PLAIN] + (ToBytes(|EncodeColumnPlain(col)|, 4) + EncodeColumnPlain(col))))
  }

  /** The columns in the order in which a hash map lists them. */
  function EncodeColumns(order: seq<Bytes>, columns: Columns): Bytes
    requires forall name :: name in order ==> name in columns
  {
    if order == [] then [] else EncodeColumn(order[0], columns[order[0]]) + EncodeColumns(order[1..], columns)
  }

  function EncodeGroup(g: RowGroup, order: seq<Bytes>): Bytes
    requires forall name :: name in order ==> name in g.columns
  {
    ToBytes(|order|, 4) + (ToBytes(g.size, 4) + EncodeColumns(order, g.columns))
  }

  ghost predicate Enumerates(order: seq<Bytes>, columns: Columns) {
    && (forall name :: name in order <==> name in columns)
    && forall i, j :: 0 <= i < j < |order| ==> order[i] != order[j]
  }

  /** One of the ways in which a group may be written. */
  ghost predicate Encodes(part: Bytes, g: RowGroup) {
    exists order :: Enumerates(order, g.columns) && part == EncodeGroup(g, order)
  }

  ghost predicate EncodesAll(parts: seq<Bytes>, groups: seq<RowGroup>) {
    |parts| == |groups| && forall i :: 0 <= i < |groups| ==> Encodes(parts[i], groups[i])
  }

  /** Everything before the footer. */
  function Body(parts: seq<Bytes>): Bytes {
    if parts == [] then MAGIC else Body(parts[..|parts| - 1]) + parts[|parts| - 1]
  }

  /** Where each group begins. */
  function Offsets(parts: seq<Bytes>): (r: seq<nat>)
    ensures |r| == |parts|
  {
    if parts == [] then []
    else Offsets(parts[..|parts| - 1]) + [|Body(parts[..|parts| - 1])|]
  }

  function EncodeOffsets(offsets: seq<nat>): Bytes {
    if offsets == [] then [] else ToBytes(offsets[0], 8) + EncodeOffsets(offsets[1..])
  }

  function Footer(offsets: seq<nat>, start: nat): Bytes {
    ToBytes(|offsets|, 4) + (EncodeOffsets(offsets) + ToBytes(start, 8))
  }

  function FileOf(parts: seq<Bytes>): Bytes {
    Body(parts) + Footer(Offsets(parts), |Body(parts)|)
  }

  // ---- Decoding ----

  /** `OutOfBounds` is a slice past the end, on which the program stops. */
  datatype ReadError = UnexpectedEof | InvalidData | OutOfBounds

  datatype Read<+T> = Ok(value: T, next: nat) | Err(error: ReadError)

  function ReadNumber(data: Bytes, pos: nat, width: nat): Read<nat> {
    if pos + width > |data| then Err(UnexpectedEof) else Ok(FromBytes(data[pos..pos + width]), pos + width)
  }

  function ReadText(data: Bytes, pos: nat, len: nat): Read<Bytes> {
    if pos + len > |data| then Err(OutOfBounds)
    else if ValidUtf8(data[pos..pos + len]) then Ok(data[pos..pos + len], pos + len)
    else Err(InvalidData)
  }

  function DecodeValue(data: Bytes, pos: nat): Read<Value> {
    match ReadNumber(data, pos, 1)
    case Err(e) => Err(e)
    case Ok(tag, at) =>
      if tag == 0 then Ok(Null, at)
      else if tag == 1 then
        match ReadNumber(data, at, 1)
        case Err(e) => Err(e)
        case Ok(b, next) => Ok(Bool(b != 0), next)
      else if tag == 2 then
        match ReadNumber(data, at, 8)
        case Err(e) => Err(e)
        case Ok(u, next) => Ok(Int(SignedOf(u)), next)
      else if tag == 3 then
        match ReadNumber(data, at, 8)
        case Err(e) => Err(e)
        case Ok(u, next) => Ok(Float(u), next)
      else if tag == 4 then
        match ReadNumber(data, at, 4)
        case Err(e) => Err(e)
        case Ok(len, start) =>
          match ReadText(data, start, len)
          case Err(e) => Err(e)
          case Ok(s, next) => Ok(Str(s), next)
      else Err(InvalidData)
  }

  function DecodeValues(data: Bytes, pos: nat, count: nat, before: seq<Value>): Read<seq<Value>>
    decreases count
  {
    if count == 0 then Ok(before, pos)
    else match DecodeValue(data, pos)
      case Err(e) => Err(e)
      case Ok(v, next) => DecodeValues(data, next, count - 1, before + [v])
  }

  function DecodeColumnPlain(data: Bytes): Read<seq<Value>> {
    match ReadNumber(data, 0, 4)
    case Err(e) => Err(e)
    case Ok(len, pos) => DecodeValues(data, pos, len, [])
  }

  datatype Column = Column(name: Bytes, values: seq<Value>)

  /** A column; the encoding byte is read and disregarded. */
  function DecodeColumn(data: Bytes, pos: nat): Read<Column> {
    match ReadNumber(data, pos, 2)
    case Err(e) => Err(e)
    case Ok(nameLen, at) =>
      match ReadText(data, at, nameLen)
      case Err(e) => Err(e)
      case Ok(name, at) =>
        match ReadNumber(data, at, 1)
        case Err(e) => Err(e)
        case Ok(_, at) =>
          match ReadNumber(data, at, 4)
          case Err(e) => Err(e)
          case Ok(len, at) =>
            if at + len > |data| then Err(OutOfBounds)
            else match DecodeColumnPlain(data[at..at + len])
              case Err(e) => Err(e)
              case Ok(values, _) => Ok(Column(name, values), at + len)
  }

  function DecodeColumns(data: Bytes, pos: nat, count: nat, columns: Columns): Read<Columns>
    decreases count
  {
    if count == 0 then Ok(columns, pos)
    else match DecodeColumn(data, pos)
      case Err(e) => Err(e)
      case Ok(c, next) => DecodeColumns(data, next, count - 1, columns[c.name := c.values])
  }

  function DecodeGroup(data: Bytes): Read<RowGroup> {
    match ReadNumber(data, 0, 4)
    case Err(e) => Err(e)
    case Ok(count, at) =>
      match ReadNumber(data, at, 4)
      case Err(e) => Err(e)
      case Ok(size, at) =>
        match DecodeColumns(data, at, count, map[])
        case Err(e) => Err(e)
        case Ok(columns, next) => Ok(RowGroup(columns, size), next)
  }

  function DecodeOffsets(data: Bytes, pos: nat, count: nat, before: seq<nat>): (r: Read<seq<nat>>)
    ensures r.Ok? ==> |r.value| == |before| + count
    decreases count
  {
    if count == 0 then Ok(before, pos)
    else match ReadNumber(data, pos, 8)
      case Err(e) => Err(e)
      case Ok(offset, next) => DecodeOffsets(data, next, count - 1, before + [offset])
  }

  function IndexOf(offsets: seq<nat>, offset: nat): (i: nat)
    requires offset in offsets
    ensures i < |offsets| && offsets[i] == offset
  {
    if offsets[0] == offset then 0 else 1 + IndexOf(offsets[1..], offset)
  }

  /** Where the group at an offset ends: at the next offset, or at the footer. */
  function EndOf(offsets: seq<nat>, offset: nat, footer: nat): nat
    requires offset in offsets
  {
    if offset == offsets[|offsets| - 1] then footer else offsets[IndexOf(offsets, offset) + 1]
  }

  /** One group; its bytes are cut out of the file. */
  function GroupAt(file: Bytes, offsets: seq<nat>, k: nat, footer: nat): Read<RowGroup>
    requires k < |offsets|
  {
    var start, end := offsets[k], EndOf(offsets, offsets[k], footer);
    if end < start then Err(OutOfBounds)
    else if end > |file| && start < end then Err(UnexpectedEof)
    else DecodeGroup(if start < end then file[start..end] else [])
  }

  function DecodeGroups(file: Bytes, offsets: seq<nat>, k: nat, footer: nat, before: seq<RowGroup>): Read<seq<RowGroup>>
    requires k <= |offsets|
    decreases |offsets| - k
  {
    if k == |offsets| then Ok(before, k)
    else match GroupAt(file, offsets, k, footer)
      case Err(e) => Err(e)
      case Ok(g, _) => DecodeGroups(file, offsets, k + 1, footer, before + [g])
  }

  function DecodeFile(file: Bytes): Read<seq<RowGroup>> {
    if |file| < 8 then Err(UnexpectedEof)
    else if file[..8] != MAGIC then Err(InvalidData)
    else
      var footer := FromBytes(file[|file| - 8..]);
      var data := if footer <= |file| then file[footer..] else [];
      match ReadNumber(data, 0, 4)
      case Err(e) => Err(e)
      case Ok(count, at) =>
        match DecodeOffsets(data, at, count, [])
        case Err(e) => Err(e)
        case Ok(offsets, _) => DecodeGroups(file, offsets, 0, footer, [])
  }

  // ---- What the length fields can hold ----

  ghost predicate FaithfulValue(v: Value) {
    match v
    case Int(n) => 0 - TWO_TO_THE_64 / 2 <= n < TWO_TO_THE_64 / 2
    case Float(bits) => bits < TWO_TO_THE_64
    case Str(s) => ValidUtf8(s) && |s| < TWO_TO_THE_32
    case _ => true
  }

  ghost predicate FaithfulColumn(name: Bytes, col: seq<Value>) {
    && ValidUtf8(name) && |name| < 65536
    && |col| < TWO_TO_THE_32 && |EncodeColumnPlain(col)| < TWO_TO_THE_32
    && forall i :: 0 <= i < |col| ==> FaithfulValue(col[i])
  }

  ghost predicate FaithfulGroup(g: RowGroup) {
    && g.size < TWO_TO_THE_32 && |g.columns| < TWO_TO_THE_32
    && forall name :: name in g.columns ==> FaithfulColumn(name, g.columns[name])
  }

  ghost predicate FaithfulFile(groups: seq<RowGroup>, parts: seq<Bytes>) {
    && |groups| < TWO_TO_THE_32 && |Body(parts)| < TWO_TO_THE_64
    && forall i :: 0 <= i < |groups| ==> FaithfulGroup(groups[i])
  }

  // ---- The parts are read back ----

  lemma NumberStands(data: Bytes, pos: nat, n: nat, width: nat)
    requires At(data, pos, ToBytes(n, width))
    requires FromBytes(ToBytes(n, width)) == n
    ensures ReadNumber(data, pos, width) == Ok(n, pos + width)
  {
    hide ToBytes, FromBytes;
  }

  lemma ByteStands(data: Bytes, pos: nat, b: byte)
    requires At(data, pos, [b])
    ensures ReadNumber(data, pos, 1) == Ok(b, pos + 1)
  {
    assert [b][1..] == [] && FromBytes([b]) == b;
  }

  lemma {:induction false} TextStands(data: Bytes, pos: nat, s: Bytes)
    requires At(data, pos, s) && ValidUtf8(s)
    ensures ReadText(data, pos, |s|) == Ok(s, pos + |s|)
  {
    hide ValidUtf8;
  }

  lemma ValueRoundTrip(v: Value, data: Bytes, pos: nat)
    requires FaithfulValue(v) && At(data, pos, EncodeValue(v))
    ensures DecodeValue(data, pos) == Ok(v, pos + |EncodeValue(v)|)
  {
    hide ToBytes, FromBytes, ValidUtf8, ReadNumber, ReadText, SignedOf, Pattern;
    match v {
      case Null => ByteStands(data, pos, 0);
      case Bool(b) =>
        assert EncodeValue(v) == [1] + [if b then 1 else 0];
        Apart(data, pos, [1], [if b then 1 else 0]);
        ByteStands(data, pos, 1);
        ByteStands(data, pos + 1, if b then 1 else 0);
      case Int(n) =>
        Apart(data, pos, [2], ToBytes(Pattern(n), 8));
        ByteStands(data, pos, 2);
        PatternFits(n);
        NumberStands(data, pos + 1, Pattern(n), 8);
      case Float(bits) =>
        Apart(data, pos, [3], ToBytes(bits, 8));
        ByteStands(data, pos, 3);
        Offset64(bits);
        NumberStands(data, pos + 1, bits, 8);
      case Str(s) =>
        Apart(data, pos, [4], ToBytes(|s|, 4) + s);
        Apart(data, pos + 1, ToBytes(|s|, 4), s);
        ByteStands(data, pos, 4);
        Length32Exactly(|s|);
        NumberStands(data, pos + 1, |s|, 4);
        TextStands(data, pos + 5, s);
    }
  }

  lemma PatternFits(n: int)
    requires 0 - TWO_TO_THE_64 / 2 <= n < TWO_TO_THE_64 / 2
    ensures FromBytes(ToBytes(Pattern(n), 8)) == Pattern(n) && SignedOf(Pattern(n)) == n
  {
    hide ToBytes, FromBytes;
    Offset64(Pattern(n));
  }

  lemma {:induction false} ValuesRoundTrip(col: seq<Value>, before: seq<Value>, data: Bytes, pos: nat)
    requires forall i :: 0 <= i < |col| ==> FaithfulValue(col[i])
    requires At(data, pos, EncodeValues(col))
    ensures DecodeValues(data, pos, |col|, before) == Ok(before + col, pos + |EncodeValues(col)|)
    decreases col
  {
    hide EncodeValue, DecodeValue, FaithfulValue;
    if col != [] {
      Apart(data, pos, EncodeValue(col[0]), EncodeValues(col[1..]));
      ValueRoundTrip(col[0], data, pos);
      assert before + [col[0]] + col[1..] == before + col;
      ValuesRoundTrip(col[1..], before + [col[0]], data, pos + |EncodeValue(col[0])|);
    } else {
      assert before + col == before;
    }
  }

  lemma ColumnPlainRoundTrip(col: seq<Value>)
    requires |col| < TWO_TO_THE_32 && forall i :: 0 <= i < |col| ==> FaithfulValue(col[i])
    ensures DecodeColumnPlain(EncodeColumnPlain(col)) == Ok(col, |EncodeColumnPlain(col)|)
  {
    hide ToBytes, FromBytes, EncodeValues, DecodeValues, ReadNumber, FaithfulValue;
    var data := EncodeColumnPlain(col);
    assert data[0..] == data;
    Apart(data, 0, ToBytes(|col|, 4), EncodeValues(col));
    Length32Exactly(|col|);
    NumberStands(data, 0, |col|, 4);
    ValuesRoundTrip(col, [], data, 4);
    assert [] + col == col;
  }

  lemma FiveApart(data: Bytes, pos: nat, a: Bytes, b: Bytes, c: Bytes, d: Bytes, e: Bytes)
    requires At(data, pos, a + (b + (c + (d + e))))
    ensures At(data, pos, a) && At(data, pos + |a|, b) && At(data, pos + |a| + |b|, c)
    ensures At(data, pos + |a| + |b| + |c|, d) && At(data, pos + |a| + |b| + |c| + |d|, e)
  {
    hide At;
    Apart(data, pos, a, b + (c + (d + e)));
    Apart(data, pos + |a|, b, c + (d + e));
    Apart(data, pos + |a| + |b|, c, d + e);
    Apart(data, pos + |a| + |b| + |c|, d, e);
  }

  lemma ColumnRoundTrip(name: Bytes, col: seq<Value>, data: Bytes, pos: nat)
    requires FaithfulColumn(name, col) && At(data, pos, EncodeColumn(name, col))
    ensures DecodeColumn(data, pos) == Ok(Column(name, col), pos + |EncodeColumn(name, col)|)
  {
    hide ToBytes, FromBytes, ValidUtf8, ReadNumber, ReadText, FaithfulValue, EncodeColumnPlain, DecodeColumnPlain;
    var e := EncodeColumnPlain(col);
    var at := pos + 2 + |name|;
    FiveApart(data, pos, ToBytes(|name|, 2), name, [PLAIN], ToBytes(|e|, 4), e);
    Width16(|name|);
    NumberStands(data, pos, |name|, 2);
    TextStands(data, pos + 2, name);
    ByteStands(data, at, PLAIN);
    Length32Exactly(|e|);
    NumberStands(data, at + 1, |e|, 4);
    ColumnPlainRoundTrip(col);
  }

  /** The columns of a group, inserted one after the other. */
  ghost function Merged(done: Columns, order: seq<Bytes>, columns: Columns): Columns
    requires forall name :: name in order ==> name in columns
    decreases order
  {
    if order == [] then done else Merged(done[order[0] := columns[order[0]]], order[1..], columns)
  }

  lemma {:induction false} MergedHolds(done: Columns, order: seq<Bytes>, columns: Columns, name: Bytes)
    requires forall name :: name in order ==> name in columns
    ensures name in Merged(done, order, columns) <==> name in done || name in order
    ensures name in order ==> Merged(done, order, columns)[name] == columns[name]
    ensures name in done && name !in order ==> Merged(done, order, columns)[name] == done[name]
    decreases order
  {
    if order != [] {
      MergedHolds(done[order[0] := columns[order[0]]], order[1..], columns, name);
      assert order == [order[0]] + order[1..];
    }
  }

  lemma {:induction false} ColumnsRoundTrip(order: seq<Bytes>, columns: Columns, done: Columns, data: Bytes, pos: nat)
    requires forall name :: name in order ==> name in columns
    requires forall name :: name in order ==> FaithfulColumn(name, columns[name])
    requires At(data, pos, EncodeColumns(order, columns))
    ensures DecodeColumns(data, pos, |order|, done) == Ok(Merged(done, order, columns), pos + |EncodeColumns(order, columns)|)
    decreases |order|
  {
    hide EncodeColumn, DecodeColumn, FaithfulColumn;
    if order != [] {
      var name, e := order[0], EncodeColumn(order[0], columns[order[0]]);
      Apart(data, pos, e, EncodeColumns(order[1..], columns));
      ColumnRoundTrip(name, columns[name], data, pos);
      ColumnsRoundTrip(order[1..], columns, done[name := columns[name]], data, pos + |e|);
    }
  }

  lemma {:induction false} EnumerationSize(order: seq<Bytes>, columns: Columns)
    requires Enumerates(order, columns)
    ensures |order| == |columns|
    decreases |order|
  {
    if order == [] {
      assert columns == map[];
    } else {
      assert order == [order[0]] + order[1..];
      EnumerationSize(order[1..], columns - {order[0]});
      assert columns.Keys == (columns - {order[0]}).Keys + {order[0]};
    }
  }

  /** Whatever the order of the columns. */
  lemma GroupRoundTrip(g: RowGroup, order: seq<Bytes>)
    requires FaithfulGroup(g) && Enumerates(order, g.columns)
    ensures DecodeGroup(EncodeGroup(g, order)) == Ok(g, |EncodeGroup(g, order)|)
  {
    hide ToBytes, FromBytes, ReadNumber, EncodeColumns, DecodeColumns, FaithfulColumn, Merged;
    var data := EncodeGroup(g, order);
    var columns := EncodeColumns(order, g.columns);
    assert data[0..] == data;
    Apart(data, 0, ToBytes(|order|, 4), ToBytes(g.size, 4) + columns);
    Apart(data, 4, ToBytes(g.size, 4), columns);
    EnumerationSize(order, g.columns);
    Length32Exactly(|order|);
    Length32Exactly(g.size);
    NumberStands(data, 0, |order|, 4);
    NumberStands(data, 4, g.size, 4);
    ColumnsRoundTrip(order, g.columns, map[], data, 8);
    forall name: Bytes
      ensures name in Merged(map[], order, g.columns) <==> name in g.columns
      ensures name in g.columns ==> Merged(map[], order, g.columns)[name] == g.columns[name]
    {
      MergedHolds(map[], order, g.columns, name);
    }
    assert Merged(map[], order, g.columns) == g.columns;
  }

  lemma {:induction false} OffsetsRoundTrip(offsets: seq<nat>, before: seq<nat>, data: Bytes, pos: nat)
    requires forall i :: 0 <= i < |offsets| ==> offsets[i] < TWO_TO_THE_64
    requires At(data, pos, EncodeOffsets(offsets))
    ensures DecodeOffsets(data, pos, |offsets|, before) == Ok(before + offsets, pos + |EncodeOffsets(offsets)|)
    decreases offsets
  {
    hide ToBytes, FromBytes, ReadNumber;
    if offsets != [] {
      Apart(data, pos, ToBytes(offsets[0], 8), EncodeOffsets(offsets[1..]));
      Offset64(offsets[0]);
      NumberStands(data, pos, offsets[0], 8);
      assert before + [offsets[0]] + offsets[1..] == before + offsets;
      OffsetsRoundTrip(offsets[1..], before + [offsets[0]], data, pos + 8);
    } else {
      assert before + offsets == before;
    }
  }

  // ---- Where the groups stand ----

  /** A part stands between its offset and the next one. */
  lemma {:induction false} PartStands(parts: seq<Bytes>, k: nat)
    requires k < |parts|
    ensures var offsets, body := Offsets(parts), Body(parts);
            var end := if k + 1 < |parts| then offsets[k + 1] else |body|;
            offsets[k] <= end <= |body| && body[offsets[k]..end] == parts[k]
  {
    hide MAGIC;
    var last := |parts| - 1;
    var body, e := Body(parts[..last]), parts[last];
    assert (body + e)[|body|..] == e;
    if k < last {
      PartStands(parts[..last], k);
      var offsets := Offsets(parts[..last]);
      var end := if k + 1 < last then offsets[k + 1] else |body|;
      assert (body + e)[offsets[k]..end] == body[offsets[k]..end];
    }
  }

  lemma {:induction false} BodyStarts(parts: seq<Bytes>)
    ensures MAGIC <= Body(parts)
  {
    if parts != [] {
      BodyStarts(parts[..|parts| - 1]);
    }
  }

  /** The offsets strictly increase, from just behind the magic word. */
  lemma {:induction false} OffsetsIncrease(parts: seq<Bytes>)
    requires forall i :: 0 <= i < |parts| ==> parts[i] != []
    ensures parts != [] ==> Offsets(parts)[0] == 8
    ensures forall i, j :: 0 <= i < j < |parts| ==> Offsets(parts)[i] < Offsets(parts)[j]
    ensures forall i :: 0 <= i < |parts| ==> Offsets(parts)[i] < |Body(parts)|
  {
    if parts != [] {
      OffsetsIncrease(parts[..|parts| - 1]);
    }
  }

  lemma {:induction false} IndexInIncreasing(offsets: seq<nat>, k: nat)
    requires k < |offsets| && forall i, j :: 0 <= i < j < |offsets| ==> offsets[i] < offsets[j]
    ensures IndexOf(offsets, offsets[k]) == k
  {
    if k > 0 {
      IndexInIncreasing(offsets[1..], k - 1);
    }
  }

  lemma PartsAreFilled(parts: seq<Bytes>, groups: seq<RowGroup>)
    requires EncodesAll(parts, groups)
    ensures forall i :: 0 <= i < |parts| ==> parts[i] != []
  {
    hide ToBytes, EncodeColumns;
    forall i | 0 <= i < |parts| ensures parts[i] != [] {
      var order :| Enumerates(order, groups[i].columns) && parts[i] == EncodeGroup(groups[i], order);
    }
  }

  lemma GroupReadBack(groups: seq<RowGroup>, parts: seq<Bytes>, k: nat)
    requires EncodesAll(parts, groups) && FaithfulFile(groups, parts) && k < |groups|
    ensures GroupAt(FileOf(parts), Offsets(parts), k, |Body(parts)|) == Ok(groups[k], |parts[k]|)
  {
    hide Body, Offsets, EncodeGroup, DecodeGroup, FaithfulGroup, Footer, IndexOf;
    var offsets, body := Offsets(parts), Body(parts);
    PartsAreFilled(parts, groups);
    OffsetsIncrease(parts);
    IndexInIncreasing(offsets, k);
    PartStands(parts, k);
    var order :| Enumerates(order, groups[k].columns) && parts[k] == EncodeGroup(groups[k], order);
    GroupRoundTrip(groups[k], order);
    var end := EndOf(offsets, offsets[k], |body|);
    assert FileOf(parts)[offsets[k]..end] == body[offsets[k]..end];
  }

  lemma {:induction false} GroupsReadBack(groups: seq<RowGroup>, parts: seq<Bytes>, k: nat)
    requires EncodesAll(parts, groups) && FaithfulFile(groups, parts) && k <= |groups|
    ensures DecodeGroups(FileOf(parts), Offsets(parts), k, |Body(parts)|, groups[..k]) == Ok(groups, |groups|)
    decreases |groups| - k
  {
    hide Body, Offsets, FileOf, GroupAt, FaithfulFile, Encodes;
    if k < |groups| {
      GroupReadBack(groups, parts, k);
      assert groups[..k] + [groups[k]] == groups[..k + 1];
      GroupsReadBack(groups, parts, k + 1);
    } else {
      assert groups[..k] == groups;
    }
  }

  lemma FooterReadBack(body: Bytes, offsets: seq<nat>)
    requires |offsets| < TWO_TO_THE_32 && |body| < TWO_TO_THE_64
    requires forall i :: 0 <= i < |offsets| ==> offsets[i] < TWO_TO_THE_64
    ensures var file := body + Footer(offsets, |body|);
            && |file| >= |body| + 12 && FromBytes(file[|file| - 8..]) == |body|
            && file[|body|..] == Footer(offsets, |body|)
            && ReadNumber(file[|body|..], 0, 4) == Ok(|offsets|, 4)
            && DecodeOffsets(file[|body|..], 4, |offsets|, []) == Ok(offsets, 4 + |EncodeOffsets(offsets)|)
  {
    hide ToBytes, FromBytes, ReadNumber, EncodeOffsets, DecodeOffsets;
    var footer := Footer(offsets, |body|);
    var file := body + footer;
    assert file[|body|..] == footer == footer[0..];
    assert file[|file| - 8..] == ToBytes(|body|, 8);
    Offset64(|body|);
    Length32Exactly(|offsets|);
    Apart(footer, 0, ToBytes(|offsets|, 4), EncodeOffsets(offsets) + ToBytes(|body|, 8));
    Apart(footer, 4, EncodeOffsets(offsets), ToBytes(|body|, 8));
    NumberStands(footer, 0, |offsets|, 4);
    OffsetsRoundTrip(offsets, [], footer, 4);
    assert [] + offsets == offsets;
  }

  /** The groups are read back, whatever the order of the columns in each. */
  lemma FileRoundTrip(groups: seq<RowGroup>, parts: seq<Bytes>)
    requires EncodesAll(parts, groups) && FaithfulFile(groups, parts)
    ensures DecodeFile(FileOf(parts)) == Ok(groups, |groups|)
  {
    hide Body, Offsets, Footer, FromBytes, ReadNumber, DecodeOffsets, EncodeOffsets, DecodeGroups, FaithfulGroup, Encodes;
    var body, offsets := Body(parts), Offsets(parts);
    PartsAreFilled(parts, groups);
    OffsetsIncrease(parts);
    BodyStarts(parts);
    FooterReadBack(body, offsets);
    assert FileOf(parts)[..8] == body[..8] == MAGIC;
    GroupsReadBack(groups, parts, 0);
    assert groups[..0] == [];
  }

  // ---- The code's own form: streams and cursors ----

  method WriteColumnPlain(col: seq<Value>) returns (buf: Bytes)
    ensures buf == EncodeColumnPlain(col)
  {
    hide ToBytes, EncodeValue;
    buf := ToBytes(|col|, 4);
    for i := 0 to |col|
      invariant buf + EncodeValues(col[i..]) == EncodeColumnPlain(col)
    {
      NextValue(col, i);
      buf := Appended(buf, EncodeValue(col[i]), EncodeValues(col[i + 1..]));
    }
    assert buf + [] == buf;
  }

  /** `buf` with `part` behind it. */
  function Appended(buf: Bytes, part: Bytes, ghost rest: Bytes): (r: Bytes)
    ensures r + rest == buf + (part + rest)
  {
    buf + part
  }

  lemma NextValue(col: seq<Value>, i: nat)
    requires i < |col|
    ensures EncodeValues(col[i..]) == EncodeValue(col[i]) + EncodeValues(col[i + 1..])
  {
    assert col[i..][0] == col[i] && col[i..][1..] == col[i + 1..];
  }

  lemma NextColumn(order: seq<Bytes>, columns: Columns, i: nat)
    requires i < |order| && forall name :: name in order ==> name in columns
    ensures EncodeColumns(order[i..], columns) == EncodeColumn(order[i], columns[order[i]]) + EncodeColumns(order[i + 1..], columns)
  {
    assert order[i..][0] == order[i] && order[i..][1..] == order[i + 1..];
  }

  /** The names of the columns, in any order. */
  method ColumnNames(columns: Columns) returns (order: seq<Bytes>)
    ensures Enumerates(order, columns)
  {
    order := [];
    var left := columns.Keys;
    while left != {}
      invariant left <= columns.Keys
      invariant forall name :: name in order <==> name in columns && name !in left
      invariant forall i, j :: 0 <= i < j < |order| ==> order[i] != order[j]
      decreases |left|
    {
      var name :| name in left;
      assert forall i :: 0 <= i < |order| ==> order[i] in order;
      left := left - {name};
      order := order + [name];
    }
  }

  method WriteGroup(stream: Bytes, g: RowGroup) returns (out: Bytes, ghost part: Bytes)
    ensures out == stream + part && Encodes(part, g)
  {
    hide ToBytes, EncodeColumnPlain;
    var order := ColumnNames(g.columns);
    part := EncodeGroup(g, order);
    ghost var columns := EncodeColumns(order, g.columns);
    assert order[0..] == order;
    out := Appended(stream, ToBytes(|order|, 4), ToBytes(g.size, 4) + columns);
    out := Appended(out, ToBytes(g.size, 4), columns);
    for i := 0 to |order|
      invariant out + EncodeColumns(order[i..], g.columns) == stream + part
    {
      assert order[i] in order;
      NextColumn(order, g.columns, i);
      out := WriteColumn(out, order[i], g.columns[order[i]], EncodeColumns(order[i + 1..], g.columns));
    }
    assert out + [] == out;
  }

  method WriteColumn(stream: Bytes, name: Bytes, col: seq<Value>, ghost rest: Bytes) returns (out: Bytes)
    ensures out + rest == stream + (EncodeColumn(name, col) + rest)
  {
    hide ToBytes, EncodeColumnPlain;
    var encoded := WriteColumnPlain(col);
    out := stream + ToBytes(|name|, 2);
    out := out + name;
    out := out + [PLAIN];
    out := out + ToBytes(|encoded|, 4);
    out := out + encoded;
    assert out == stream + EncodeColumn(name, col);
  }

  /** Write the groups, and the footer behind them. */
  method WriteFile(groups: seq<RowGroup>) returns (file: Bytes, offsets: seq<nat>, ghost parts: seq<Bytes>)
    ensures EncodesAll(parts, groups) && file == FileOf(parts) && offsets == Offsets(parts)
  {
    hide ToBytes, Encodes;
    file, offsets, parts := MAGIC, [], [];
    for i := 0 to |groups|
      invariant EncodesAll(parts, groups[..i]) && file == Body(parts) && offsets == Offsets(parts)
    {
      offsets := offsets + [|file|];
      ghost var part;
      file, part := WriteGroup(file, groups[i]);
      assert (parts + [part])[..|parts|] == parts;
      parts := parts + [part];
    }
    assert groups[..|groups|] == groups;
    file := WriteFooter(file, offsets);
  }

  method WriteFooter(stream: Bytes, offsets: seq<nat>) returns (out: Bytes)
    ensures out == stream + Footer(offsets, |stream|)
  {
    hide ToBytes;
    ghost var end := ToBytes(|stream|, 8);
    assert offsets[0..] == offsets;
    out := Appended(stream, ToBytes(|offsets|, 4), EncodeOffsets(offsets) + end);
    for i := 0 to |offsets|
      invariant out + (EncodeOffsets(offsets[i..]) + end) == stream + Footer(offsets, |stream|)
    {
      assert offsets[i..][0] == offsets[i] && offsets[i..][1..] == offsets[i + 1..];
      assert EncodeOffsets(offsets[i..]) + end == ToBytes(offsets[i], 8) + (EncodeOffsets(offsets[i + 1..]) + end);
      out := Appended(out, ToBytes(offsets[i], 8), EncodeOffsets(offsets[i + 1..]) + end);
    }
    assert EncodeOffsets(offsets[|offsets|..]) + end == end;
    out := out + ToBytes(|stream|, 8);
  }

  method ReadColumnPlain(data: Bytes) returns (r: Read<seq<Value>>)
    ensures r == DecodeColumnPlain(data)
  {
    hide ReadNumber, DecodeValue;
    var len := ReadNumber(data, 0, 4);
    if len.Err? { return Err(len.error); }
    var pos, col := len.next, [];
    for k := 0 to len.value
      invariant DecodeColumnPlain(data) == DecodeValues(data, pos, len.value - k, col)
    {
      var v := DecodeValue(data, pos);
      if v.Err? { return Err(v.error); }
      pos, col := v.next, col + [v.value];
    }
    r := Ok(col, pos);
  }

  method ReadColumn(data: Bytes, pos: nat) returns (r: Read<Column>)
    ensures r == DecodeColumn(data, pos)
  {
    hide ReadNumber, ReadText, DecodeColumnPlain;
    var nameLen := ReadNumber(data, pos, 2);
    if nameLen.Err? { return Err(nameLen.error); }
    var name := ReadText(data, nameLen.next, nameLen.value);
    if name.Err? { return Err(name.error); }
    var encoding := ReadNumber(data, name.next, 1);
    if encoding.Err? { return Err(encoding.error); }
    var len := ReadNumber(data, encoding.next, 4);
    if len.Err? { return Err(len.error); }
    var at := len.next;
    if at + len.value > |data| { return Err(OutOfBounds); }
    var values := ReadColumnPlain(data[at..at + len.value]);
    if values.Err? { return Err(values.error); }
    r := Ok(Column(name.value, values.value), at + len.value);
  }

  method ReadGroup(data: Bytes) returns (r: Read<RowGroup>)
    ensures r == DecodeGroup(data)
  {
    hide ReadNumber, DecodeColumn;
    var count := ReadNumber(data, 0, 4);
    if count.Err? { return Err(count.error); }
    var size := ReadNumber(data, count.next, 4);
    if size.Err? { return Err(size.error); }
    var pos := size.next;
    var columns: Columns := map[];
    for k := 0 to count.value
      invariant DecodeColumns(data, size.next, count.value, map[]) == DecodeColumns(data, pos, count.value - k, columns)
    {
      var c := ReadColumn(data, pos);
      if c.Err? { return Err(c.error); }
      pos, columns := c.next, columns[c.value.name := c.value.values];
    }
    r := Ok(RowGroup(columns, size.value), pos);
  }

  /** Read the groups, from the footer that the last eight bytes point to. */
  method ReadFile(file: Bytes) returns (r: Read<seq<RowGroup>>)
    ensures r == DecodeFile(file)
  {
    hide FromBytes, ReadNumber, DecodeGroup, EndOf;
    if |file| < 8 { return Err(UnexpectedEof); }
    if file[..8] != MAGIC { return Err(InvalidData); }
    var footer := FromBytes(file[|file| - 8..]);
    var data := if footer <= |file| then file[footer..] else [];
    var count := ReadNumber(data, 0, 4);
    if count.Err? { return Err(count.error); }
    var pos := count.next;
    var offsets: seq<nat> := [];
    for k := 0 to count.value
      invariant |offsets| == k
      invariant DecodeOffsets(data, count.next, count.value, []) == DecodeOffsets(data, pos, count.value - k, offsets)
    {
      var offset := ReadNumber(data, pos, 8);
      if offset.Err? { return Err(offset.error); }
      pos, offsets := offset.next, offsets + [offset.value];
    }
    var groups: seq<RowGroup> := [];
    for k := 0 to |offsets|
      invariant DecodeFile(file) == DecodeGroups(file, offsets, k, footer, groups)
    {
      var start, end := offsets[k], EndOf(offsets, offsets[k], footer);
      if end < start { return Err(OutOfBounds); }
      if end > |file| && start < end { return Err(UnexpectedEof); }
      var g := ReadGroup(if start < end then file[start..end] else []);
      if g.Err? { return Err(g.error); }
      groups := groups + [g.value];
    }
    r := Ok(groups, |offsets|);
  }
}
