/** B+tree nodes on pages of 4096 bytes. */
module PageFormat {
  import opened ByteStrings
  import opened Options
  import opened LittleEndian
  import opened BTreeShape

  const PAGE_SIZE: nat := 4096
  const HEADER_SIZE: nat := 14
  const KEY_SLOT: nat := 64
  const VAL_SLOT: nat := 128
  const KEY_MAX: nat := 62
  const VAL_MAX: nat := 126
  const ORDER: nat := 16
  const VALUES_AT: nat := 1038
  const NULL_PAGE: nat := 0xFFFF_FFFF
  const INTERNAL: byte := 1
  const LEAF: byte := 2

  /** The nodes that the tree puts on pages: at most 15 keys, 32-bit page ids, and one
      child more than keys or one value for each key. */
  predicate Fits(n: Node) {
    && |n.keys| < ORDER
    && match n
       case Internal(keys, children) => |children| == |keys| + 1 && forall i :: 0 <= i < |children| ==> children[i] < TWO_TO_THE_32
       case Leaf(keys, values, prev, next) =>
         |values| == |keys| && (prev.Some? ==> prev.value < NULL_PAGE) && (next.Some? ==> next.value < NULL_PAGE)
  }

  predicate AllWithin(s: seq<Bytes>, n: nat) {
    forall i :: 0 <= i < |s| ==> |s[i]| <= n
  }

  /** All keys and values are short enough for their slots. */
  predicate Short(n: Node) {
    AllWithin(n.keys, KEY_MAX) && (n.Leaf? ==> AllWithin(n.values, VAL_MAX))
  }

  // ---- The layout ----

  function Zeros(n: nat): (r: Bytes)
    ensures |r| == n && forall i :: 0 <= i < n ==> r[i] == 0
  {
    seq(n, _ => 0)
  }

  function Cut(s: Bytes, n: nat): (r: Bytes)
    ensures |r| <= n && (|s| <= n <==> r == s)
  {
    if |s| <= n then s else s[..n]
  }

  /** A length, as much of the string as there is room for, and zeros. */
  function Slot(s: Bytes, width: nat): (r: Bytes)
    requires 2 <= width
    ensures |r| == width
  {
    ToBytes(|Cut(s, width - 2)|, 2) + Cut(s, width - 2) + Zeros(width - 2 - |Cut(s, width - 2)|)
  }

  function Slots(ss: seq<Bytes>, width: nat): Bytes
    requires 2 <= width
  {
    if ss == [] then [] else Slot(ss[0], width) + Slots(ss[1..], width)
  }

  function PageIds(ids: seq<nat>): (r: Bytes)
    ensures |r| == 4 * |ids|
  {
    if ids == [] then [] else ToBytes(ids[0], 4) + PageIds(ids[1..])
  }

  function LinkTo(id: Option<nat>): nat {
    if id.Some? then id.value else NULL_PAGE
  }

  function LinkFrom(id: nat): Option<nat> {
    if id == NULL_PAGE then None else Some(id)
  }

  function Header(n: Node): (r: Bytes)
    ensures |r| == HEADER_SIZE
  {
    match n
    case Internal(keys, _) => [INTERNAL] + ToBytes(|keys|, 2) + Zeros(11)
    case Leaf(keys, _, prev, next) => [LEAF] + ToBytes(|keys|, 2) + ToBytes(LinkTo(next), 4) + ToBytes(LinkTo(prev), 4) + Zeros(3)
  }

  /** What follows the keys: the children at once, or the values after all key slots. */
  function Body(n: Node): Bytes
    requires Fits(n)
  {
    match n
    case Internal(_, children) => PageIds(children)
    case Leaf(keys, values, _, _) => Zeros(KEY_SLOT * (ORDER - |keys|)) + Slots(values, VAL_SLOT)
  }

  function Written(n: Node): Bytes
    requires Fits(n)
  {
    Header(n) + Slots(n.keys, KEY_SLOT) + Body(n)
  }

  lemma {:induction false} SlotsSize(ss: seq<Bytes>, width: nat)
    requires width == KEY_SLOT || width == VAL_SLOT
    ensures |Slots(ss, width)| == if width == KEY_SLOT then KEY_SLOT * |ss| else VAL_SLOT * |ss|
  {
    if ss != [] {
      SlotsSize(ss[1..], width);
    }
  }

  lemma WrittenSize(n: Node)
    requires Fits(n)
    ensures |Written(n)| <= PAGE_SIZE
    ensures |Slots(n.keys, KEY_SLOT)| == KEY_SLOT * |n.keys|
    ensures n.Leaf? ==> HEADER_SIZE + |Slots(n.keys, KEY_SLOT)| + KEY_SLOT * (ORDER - |n.keys|) == VALUES_AT
    ensures n.Leaf? ==> VALUES_AT + |Slots(n.values, VAL_SLOT)| <= PAGE_SIZE
  {
    SlotsSize(n.keys, KEY_SLOT);
    if n.Leaf? {
      SlotsSize(n.values, VAL_SLOT);
    }
  }

  /** The page of a node. */
  function PageBytes(n: Node): (r: Bytes)
    requires Fits(n)
    ensures |r| == PAGE_SIZE
  {
    WrittenSize(n);
    Written(n) + Zeros(PAGE_SIZE - |Written(n)|)
  }

  // ---- Writing ----

  /** Up to some point the page is written, and blank from there on. */
  predicate WrittenTo(page: Bytes, written: Bytes) {
    |written| <= |page| && page == written + Zeros(|page| - |written|)
  }

  method CopyInto(buf: array<byte>, off: nat, s: Bytes)
    requires off + |s| <= buf.Length
    modifies buf
    ensures buf[..] == old(buf[..off]) + s + old(buf[off + |s|..])
  {
    for i := 0 to |s|
      invariant buf[..] == old(buf[..off]) + s[..i] + old(buf[off + i..])
    {
      buf[off + i] := s[i];
    }
  }

  lemma WrittenOn(page: Bytes, written: Bytes, s: Bytes, page': Bytes, gap: nat)
    requires WrittenTo(page, written) && |written| + |s| + gap <= |page|
    requires page' == page[..|written|] + s + page[|written| + |s|..]
    ensures WrittenTo(page', written + s + Zeros(gap))
  {
  }

  lemma WrittenSizeOf(page: Bytes, written: Bytes)
    requires WrittenTo(page, written)
    ensures |written| <= |page|
  {
  }

  method WriteSlots(buf: array<byte>, off: nat, ss: seq<Bytes>, width: nat, ghost written: Bytes)
    requires width == KEY_SLOT || width == VAL_SLOT
    requires off == |written| && WrittenTo(buf[..], written) && |written| + |Slots(ss, width)| <= buf.Length
    modifies buf
    ensures WrittenTo(buf[..], written + Slots(ss, width))
  {
    hide Slot;
    var at := off;
    assert written + Slots(ss[..0], width) == written;
    for i := 0 to |ss|
      invariant at == |written + Slots(ss[..i], width)|
      invariant WrittenTo(buf[..], written + Slots(ss[..i], width))
    {
      SlotsSplit(ss, i, width);
      WriteSlot(buf, at, ss[i], width, written + Slots(ss[..i], width));
      assert written + Slots(ss[..i], width) + Slot(ss[i], width) == written + Slots(ss[..i + 1], width);
      at := at + width;
    }
    assert ss[..|ss|] == ss;
  }

  lemma SlotIs(s: Bytes, width: nat, written: Bytes)
    requires 2 <= width
    ensures var t := Cut(s, width - 2);
            written + ToBytes(|t|, 2) + t + Zeros(width - 2 - |t|) == written + Slot(s, width)
  {
  }

  method WriteSlot(buf: array<byte>, off: nat, s: Bytes, width: nat, ghost written: Bytes)
    requires 2 <= width && off == |written| && WrittenTo(buf[..], written) && |written| + width <= buf.Length
    modifies buf
    ensures WrittenTo(buf[..], written + Slot(s, width))
  {
    hide ToBytes, Slot, WrittenTo;
    var t := Cut(s, width - 2);
    SlotIs(s, width, written);
    CopyInto(buf, off, ToBytes(|t|, 2));
    WrittenSizeOf(old(buf[..]), written);
    WrittenOn(old(buf[..]), written, ToBytes(|t|, 2), buf[..], 0);
    ghost var page, head := buf[..], written + ToBytes(|t|, 2);
    assert head + Zeros(0) == head;
    CopyInto(buf, off + 2, t);
    WrittenOn(page, head, t, buf[..], width - 2 - |t|);
  }

  lemma {:induction false} SlotsConcat(a: seq<Bytes>, b: seq<Bytes>, width: nat)
    requires 2 <= width
    ensures Slots(a + b, width) == Slots(a, width) + Slots(b, width)
  {
    hide Slot;
    if a == [] {
      assert a + b == b;
    } else {
      assert (a + b)[1..] == a[1..] + b;
      SlotsConcat(a[1..], b, width);
    }
  }

  lemma SlotsSplit(ss: seq<Bytes>, i: nat, width: nat)
    requires i < |ss| && (width == KEY_SLOT || width == VAL_SLOT)
    ensures Slots(ss[..i + 1], width) == Slots(ss[..i], width) + Slot(ss[i], width)
    ensures |Slots(ss[..i], width)| + width <= |Slots(ss, width)|
  {
    hide Slot;
    assert ss[..i + 1] == ss[..i] + [ss[i]] && ss == ss[..i + 1] + ss[i + 1..];
    SlotsConcat(ss[..i], [ss[i]], width);
    SlotsConcat(ss[..i + 1], ss[i + 1..], width);
    var one: seq<Bytes> := [ss[i]];
    assert one[1..] == [];
  }

  /** The page of a node, part by part. */
  method EncodePage(n: Node) returns (buf: array<byte>)
    requires Fits(n)
    ensures fresh(buf) && buf[..] == PageBytes(n)
  {
    hide ToBytes, Slots, PageIds, WrittenTo, Header, Written, Zeros;
    WrittenSize(n);
    buf := new byte[PAGE_SIZE](_ => 0);
    Blank(buf[..]);
    var head := Header(n);
    CopyInto(buf, 0, head);
    WrittenOn(Zeros(PAGE_SIZE), [], head, buf[..], 0);
    HeadWritten(head);
    WriteSlots(buf, HEADER_SIZE, n.keys, KEY_SLOT, head);
    WriteBody(buf, n);
    WrittenIs(buf[..], Written(n));
  }

  method WriteBody(buf: array<byte>, n: Node)
    requires Fits(n) && buf.Length == PAGE_SIZE && WrittenTo(buf[..], Header(n) + Slots(n.keys, KEY_SLOT))
    modifies buf
    ensures WrittenTo(buf[..], Written(n))
  {
    hide ToBytes, Slots, PageIds, WrittenTo, Header, Written, Zeros;
    WrittenSize(n);
    WrittenParts(n);
    ghost var soFar, page := Header(n) + Slots(n.keys, KEY_SLOT), buf[..];
    match n {
      case Internal(keys, children) =>
        var ids := PageIds(children);
        WrittenSizeOf(page, soFar);
        CopyInto(buf, HEADER_SIZE + KEY_SLOT * |keys|, ids);
        WrittenOn(page, soFar, ids, buf[..], 0);
      case Leaf(keys, values, _, _) =>
        GapWritten(page, soFar, KEY_SLOT * (ORDER - |keys|));
        WriteSlots(buf, VALUES_AT, values, VAL_SLOT, soFar + Zeros(KEY_SLOT * (ORDER - |keys|)));
    }
  }

  lemma HeadWritten(head: Bytes)
    ensures [] + head + Zeros(0) == head
  {
  }

  lemma WrittenParts(n: Node)
    requires Fits(n)
    ensures n.Internal? ==> Header(n) + Slots(n.keys, KEY_SLOT) + PageIds(n.children) + Zeros(0) == Written(n)
    ensures n.Leaf? ==> Header(n) + Slots(n.keys, KEY_SLOT) + Zeros(KEY_SLOT * (ORDER - |n.keys|)) + Slots(n.values, VAL_SLOT) == Written(n)
  {
    hide Header, Slots, PageIds;
    if n.Leaf? {
      var a, b := Header(n) + Slots(n.keys, KEY_SLOT), Zeros(KEY_SLOT * (ORDER - |n.keys|));
      assert a + b + Slots(n.values, VAL_SLOT) == a + (b + Slots(n.values, VAL_SLOT));
    }
  }

  lemma Blank(page: Bytes)
    requires |page| == PAGE_SIZE && forall i :: 0 <= i < PAGE_SIZE ==> page[i] == 0
    ensures page == Zeros(PAGE_SIZE) && WrittenTo(page, [])
  {
  }

  lemma GapWritten(page: Bytes, written: Bytes, gap: nat)
    requires WrittenTo(page, written) && |written| + gap <= |page|
    ensures WrittenTo(page, written + Zeros(gap))
  {
  }

  lemma WrittenIs(page: Bytes, written: Bytes)
    requires WrittenTo(page, written)
    ensures |written| <= |page| && page == written + Zeros(|page| - |written|)
  {
  }

  // ---- Reading ----

  /** `count` slots from `off` on; none if a slot or the string in it runs off the page. */
  function ReadSlots(page: Bytes, off: nat, width: nat, count: nat): Option<seq<Bytes>>
    decreases count
  {
    if count == 0 then Some([])
    else if off + 2 > |page| then None
    else
      var len := FromBytes(page[off..off + 2]);
      if off + 2 + len > |page| then None
      else match ReadSlots(page, off + width, width, count - 1)
        case None => None
        case Some(rest) => Some([page[off + 2..off + 2 + len]] + rest)
  }

  function ReadIds(page: Bytes, off: nat, count: nat): Option<seq<nat>>
    decreases count
  {
    if count == 0 then Some([])
    else if off + 4 > |page| then None
    else match ReadIds(page, off + 4, count - 1)
      case None => None
      case Some(rest) => Some([FromBytes(page[off..off + 4])] + rest)
  }

  datatype Decoded = Decoded(node: Node) | UnknownType | OffThePage

  function Decode(page: Bytes): Decoded
    requires |page| == PAGE_SIZE
  {
    var count := FromBytes(page[1..3]);
    if page[0] == INTERNAL then
      match (ReadSlots(page, HEADER_SIZE, KEY_SLOT, count), ReadIds(page, HEADER_SIZE + KEY_SLOT * count, count + 1))
      case (Some(keys), Some(children)) => Decoded(Internal(keys, children))
      case _ => OffThePage
    else if page[0] == LEAF then
      match (ReadSlots(page, HEADER_SIZE, KEY_SLOT, count), ReadSlots(page, VALUES_AT, VAL_SLOT, count))
      case (Some(keys), Some(values)) =>
        Decoded(Leaf(keys, values, LinkFrom(FromBytes(page[7..11])), LinkFrom(FromBytes(page[3..7]))))
      case _ => OffThePage
    else UnknownType
  }

  method DecodePage(page: Bytes) returns (r: Decoded)
    requires |page| == PAGE_SIZE
    ensures r == Decode(page)
  {
    hide ReadSlots, ReadIds, FromBytes;
    var count := FromBytes(page[1..3]);
    if page[0] == INTERNAL {
      var keys := SlotsFrom(page, HEADER_SIZE, KEY_SLOT, count);
      var children := IdsFrom(page, HEADER_SIZE + KEY_SLOT * count, count + 1);
      if keys == None || children == None { return OffThePage; }
      r := Decoded(Internal(keys.value, children.value));
    } else if page[0] == LEAF {
      var next, prev := FromBytes(page[3..7]), FromBytes(page[7..11]);
      var keys := SlotsFrom(page, HEADER_SIZE, KEY_SLOT, count);
      var values := SlotsFrom(page, VALUES_AT, VAL_SLOT, count);
      if keys == None || values == None { return OffThePage; }
      r := Decoded(Leaf(keys.value, values.value, LinkFrom(prev), LinkFrom(next)));
    } else {
      r := UnknownType;
    }
  }

  method SlotsFrom(page: Bytes, off: nat, width: nat, count: nat) returns (r: Option<seq<Bytes>>)
    ensures r == ReadSlots(page, off, width, count)
  {
    hide FromBytes;
    var found: seq<Bytes> := [];
    var at: nat := off;
    ghost var all := ReadSlots(page, off, width, count);
    assert all.Some? ==> found + all.value == all.value;
    for i := 0 to count
      invariant match ReadSlots(page, at, width, count - i)
                case Some(rest) => all == Some(found + rest)
                case None => all == None
    {
      if at + 2 > |page| { return None; }
      var len := FromBytes(page[at..at + 2]);
      if at + 2 + len > |page| { return None; }
      ghost var rest := ReadSlots(page, at + width, width, count - i - 1);
      var one := page[at + 2..at + 2 + len];
      assert rest.Some? ==> found + ([one] + rest.value) == (found + [one]) + rest.value;
      found := found + [one];
      at := at + width;
    }
    assert found + [] == found;
    r := Some(found);
  }

  method IdsFrom(page: Bytes, off: nat, count: nat) returns (r: Option<seq<nat>>)
    ensures r == ReadIds(page, off, count)
  {
    hide FromBytes;
    var found: seq<nat> := [];
    var at: nat := off;
    ghost var all := ReadIds(page, off, count);
    assert all.Some? ==> found + all.value == all.value;
    for i := 0 to count
      invariant match ReadIds(page, at, count - i)
                case Some(rest) => all == Some(found + rest)
                case None => all == None
    {
      if at + 4 > |page| { return None; }
      var id := FromBytes(page[at..at + 4]);
      ghost var rest := ReadIds(page, at + 4, count - i - 1);
      assert rest.Some? ==> found + ([id] + rest.value) == (found + [id]) + rest.value;
      found := found + [id];
      at := at + 4;
    }
    assert found + [] == found;
    r := Some(found);
  }

  // ---- The round trip ----

  function CutAll(ss: seq<Bytes>, n: nat): (r: seq<Bytes>)
    ensures |r| == |ss|
    ensures AllWithin(ss, n) <==> r == ss
  {
    if ss == [] then [] else
      var rest := CutAll(ss[1..], n);
      assert AllWithin(ss, n) <==> |ss[0]| <= n && AllWithin(ss[1..], n);
      [Cut(ss[0], n)] + rest
  }

  /** What a page can hold of a node. */
  function Truncated(n: Node): Node {
    match n
    case Internal(keys, children) => Internal(CutAll(keys, KEY_MAX), children)
    case Leaf(keys, values, prev, next) => Leaf(CutAll(keys, KEY_MAX), CutAll(values, VAL_MAX), prev, next)
  }

  lemma SlotParts(s: Bytes, width: nat)
    requires 2 <= width
    ensures var t := Cut(s, width - 2);
            2 + |t| <= width && Slot(s, width)[..2] == ToBytes(|t|, 2) && Slot(s, width)[2..2 + |t|] == t
  {
    hide ToBytes;
  }

  lemma {:induction false} SlotsRead(page: Bytes, off: nat, ss: seq<Bytes>, width: nat)
    requires off <= |page| && (width == KEY_SLOT || width == VAL_SLOT) && Slots(ss, width) <= page[off..]
    ensures ReadSlots(page, off, width, |ss|) == Some(CutAll(ss, width - 2))
    decreases |ss|
  {
    hide ToBytes, FromBytes, Slot;
    if ss != [] {
      var t := Cut(ss[0], width - 2);
      var slot, rest := Slot(ss[0], width), Slots(ss[1..], width);
      SlotParts(ss[0], width);
      assert page[off..][..|slot| + |rest|] == slot + rest;
      assert page[off..off + width] == slot;
      assert page[off..off + 2] == page[off..off + width][..2];
      Width16(|t|);
      assert page[off + 2..off + 2 + |t|] == page[off..off + width][2..2 + |t|];
      assert rest <= page[off + width..];
      SlotsRead(page, off + width, ss[1..], width);
    }
  }

  lemma {:induction false} IdsRead(page: Bytes, off: nat, ids: seq<nat>)
    requires off <= |page| && PageIds(ids) <= page[off..] && forall i :: 0 <= i < |ids| ==> ids[i] < TWO_TO_THE_32
    ensures ReadIds(page, off, |ids|) == Some(ids)
    decreases |ids|
  {
    hide ToBytes, FromBytes;
    if ids != [] {
      var rest := PageIds(ids[1..]);
      assert page[off..][..4 + |rest|] == ToBytes(ids[0], 4) + rest;
      assert page[off..off + 4] == ToBytes(ids[0], 4);
      Length32Exactly(ids[0]);
      assert rest <= page[off + 4..];
      IdsRead(page, off + 4, ids[1..]);
      assert ids == [ids[0]] + ids[1..];
    }
  }

  /** Where the parts of a page are. */
  lemma PageParts(n: Node)
    requires Fits(n)
    ensures var page, keys := PageBytes(n), Slots(n.keys, KEY_SLOT);
            && page[..HEADER_SIZE] == Header(n) && keys <= page[HEADER_SIZE..]
            && (n.Internal? ==> HEADER_SIZE + |keys| <= PAGE_SIZE && PageIds(n.children) <= page[HEADER_SIZE + |keys|..])
            && (n.Leaf? ==> Slots(n.values, VAL_SLOT) <= page[VALUES_AT..])
    ensures |Slots(n.keys, KEY_SLOT)| == KEY_SLOT * |n.keys|
  {
    hide Slots, PageIds, Header, Zeros, Body, Fits;
    WrittenSize(n);
    var page, head, keys := PageBytes(n), Header(n), Slots(n.keys, KEY_SLOT);
    var rest := Body(n) + Zeros(PAGE_SIZE - |Written(n)|);
    assert page == head + (keys + rest);
    Sliced(head, keys + rest);
    Sliced(keys, rest);
    Sliced(head + keys, rest);
    assert head + keys + rest == head + (keys + rest);
    BodyParts(n, Zeros(PAGE_SIZE - |Written(n)|));
    if n.Leaf? {
      var gap := Zeros(KEY_SLOT * (ORDER - |n.keys|));
      var tail := Slots(n.values, VAL_SLOT) + Zeros(PAGE_SIZE - |Written(n)|);
      Sliced(head + keys + gap, tail);
      assert head + keys + gap + tail == head + keys + (gap + tail);
    }
  }

  lemma Sliced(a: Bytes, b: Bytes)
    ensures (a + b)[..|a|] == a && (a + b)[|a|..] == b
  {
  }

  lemma BodyParts(n: Node, blank: Bytes)
    requires Fits(n)
    ensures n.Internal? ==> Body(n) == PageIds(n.children)
    ensures n.Leaf? ==> Body(n) + blank == Zeros(KEY_SLOT * (ORDER - |n.keys|)) + (Slots(n.values, VAL_SLOT) + blank)
  {
    hide Slots, PageIds, Zeros;
    if n.Leaf? {
      var a, b := Zeros(KEY_SLOT * (ORDER - |n.keys|)), Slots(n.values, VAL_SLOT);
      assert (a + b) + blank == a + (b + blank);
    }
  }

  lemma HeaderFields(n: Node)
    requires Fits(n)
    ensures Header(n)[1..3] == ToBytes(|n.keys|, 2)
    ensures n.Leaf? ==> Header(n)[3..7] == ToBytes(LinkTo(n.next), 4) && Header(n)[7..11] == ToBytes(LinkTo(n.prev), 4)
  {
    hide ToBytes;
  }

  /** Reading a page gives back what the page could hold of the node. */
  lemma DecodeEncode(n: Node)
    requires Fits(n)
    ensures Decode(PageBytes(n)) == Decoded(Truncated(n))
  {
    hide ToBytes, FromBytes, Slots, PageIds, ReadSlots, ReadIds, CutAll, PageBytes, Header;
    var page := PageBytes(n);
    PageParts(n);
    HeaderFields(n);
    HeaderKind(n);
    Width16(|n.keys|);
    assert page[0] == page[..HEADER_SIZE][0];
    assert page[1..3] == page[..HEADER_SIZE][1..3];
    SlotsRead(page, HEADER_SIZE, n.keys, KEY_SLOT);
    match n {
      case Internal(_, children) =>
        IdsRead(page, HEADER_SIZE + KEY_SLOT * |n.keys|, children);
      case Leaf(_, values, prev, next) =>
        SlotsRead(page, VALUES_AT, values, VAL_SLOT);
        assert page[3..7] == page[..HEADER_SIZE][3..7];
        assert page[7..11] == page[..HEADER_SIZE][7..11];
        Length32Exactly(LinkTo(next));
        Length32Exactly(LinkTo(prev));
    }
  }

  lemma HeaderKind(n: Node)
    ensures Header(n)[0] == if n.Leaf? then LEAF else INTERNAL
  {
  }

  /** A node survives its page exactly when its keys and values fit their slots. */
  lemma RoundTripExactly(n: Node)
    requires Fits(n)
    ensures Decode(PageBytes(n)) == Decoded(n) <==> Short(n)
  {
    hide Decode, PageBytes;
    DecodeEncode(n);
  }
}
